/** Filtering and collapsing the tree while it is being walked (src/topology.c): a child loop that
    rereads its slot, so that it goes on with whatever has taken the place of a dropped child. */
module Collapse {
  import opened ObjTypes
  import opened Trees

  /** The child loop of a walk: the children that have been passed, and those still to come. */
  ghost predicate Walking(o: Node, t: Tree, child: Node?, prev: Node?, done: seq<Tree>, todo: seq<Tree>)
    reads AllNodes(done), AllNodes(todo), o
  {
    && Apart(done + todo) && AllNodes(done) + AllNodes(todo) <= AllNodes(t.children)
    && Linked(o.firstChild, done, child) && Linked(child, todo, null)
    && prev == (if done == [] then null else done[|done| - 1].obj)
    && o !in AllNodes(t.children)
  }

  lemma WalkStart(o: Node, t: Tree)
    requires t.obj == o && Single(t) && Represents(t)
    ensures Walking(o, t, o.firstChild, null, [], t.children)
  {
    assert [] + t.children == t.children;
    NoTrees();
  }

  /** The walk is over: the children are those that were passed. */
  lemma WalkEnd(o: Node, t: Tree, prev: Node?, done: seq<Tree>, todo: seq<Tree>)
    requires Walking(o, t, null, prev, done, todo)
    ensures todo == [] && Linked(o.firstChild, done, null) && Apart(done) && AllNodes(done) <= AllNodes(t.children)
  {
    assert done + [] == done;
  }

  /** The next child, apart from the others. */
  lemma WalkChild(o: Node, t: Tree, child: Node, prev: Node?, done: seq<Tree>, todo: seq<Tree>)
    requires Walking(o, t, child, prev, done, todo)
    ensures todo != [] && child == todo[0].obj && Represents(todo[0]) && Single(todo[0])
    ensures Linked(child.nextSibling, todo[1..], null) && Linked(o.firstChild, done, child)
        && o !in AllNodes(t.children)
    ensures Apart(done) && Apart(todo[1..])
    ensures Nodes(todo[0]) !! AllNodes(done) && Nodes(todo[0]) !! AllNodes(todo[1..])
        && AllNodes(done) !! AllNodes(todo[1..])
    ensures Nodes(todo[0]) + AllNodes(done) + AllNodes(todo[1..]) <= AllNodes(t.children)
    ensures AllSizes(todo) == Size(todo[0]) + AllSizes(todo[1..]) && child in Nodes(todo[0])
    ensures AllNodes(todo[0].children) <= Nodes(todo[0]) && child !in AllNodes(todo[0].children)
    ensures prev == (if done == [] then null else done[|done| - 1].obj) && (prev != null ==> prev in AllNodes(done))
  {
    hide Represents;
    LinkedFirst(child, todo, null);
    JoinedApart(done, todo);
    assert [todo[0]] + todo[1..] == todo;
    JoinedApart([todo[0]], todo[1..]);
    JoinedNodes([todo[0]], todo[1..]);
    OneTree(todo[0]);
    if done != [] {
      NodesAt(done, |done| - 1);
    }
  }

  /** What the loop does after the body has put `now` in the place of the first child. */
  method WalkOn(o: Node, child: Node, head: Node?, prev: Node?, ghost t: Tree, ghost done: seq<Tree>,
      ghost todo: seq<Tree>,
                ghost now: seq<Tree>, ghost next: Node?, ghost all: set<Node>)
    returns (child': Node?, prev': Node?, ghost done': seq<Tree>, ghost todo': seq<Tree>)
    requires todo != [] && Linked(o.firstChild, done, child) && Apart(done) && o !in AllNodes(t.children)
    requires prev == if done == [] then null else done[|done| - 1].obj
    requires AllNodes(now) + AllNodes(done) + AllNodes(todo[1..]) <= AllNodes(t.children) <= all
    requires Apart(now) && Apart(todo[1..]) && AllNodes(now) !! AllNodes(done) && AllNodes(now) !! AllNodes(todo[1..])
    requires AllNodes(done) !! AllNodes(todo[1..])
    requires Linked(head, now, next) && Linked(next, todo[1..], null)
    requires if child in AllNodes(now) then |now| == 1 && now[0].obj == child else child !in AllNodes(todo[1..])
    modifies o`firstChild, (if prev == null then {} else {prev})`nextSibling
    ensures Walking(o, t, child', prev', done', todo')
    ensures
      if child in AllNodes(now) then done' == done + now && todo' == todo[1..]
      else done' == done && todo' == now + todo[1..]
  {
    hide Represents, Nodes, Apart, AllNodes;
    ghost var rest := todo[1..];
    if prev != null {
      NodesAt(done, |done| - 1);
    }
    assert o !in AllNodes(now) && o !in AllNodes(rest) && o !in AllNodes(done);
    assert prev != null ==> prev !in AllNodes(now) && prev !in AllNodes(rest);
    WriteSlot(o, prev, head, done, child);
    JoinedApart(now, rest);
    JoinedNodes(now, rest);
    JoinedApart(done, now + rest);
    JoinedApart(done, now);
    JoinedNodes(done, now);
    if head == child {
      HeadIsKept(head, now, next, rest, child);
      LinkedJoined(o.firstChild, done, head, now, next);
      assert done + now + rest == done + (now + rest);
      assert now[0].obj.nextSibling == next;
      child', prev', done', todo' := child.nextSibling, child, done + now, rest;
    } else {
      LinkedJoined(head, now, next, rest, null);
      child', prev', done', todo' := head, prev, done, now + rest;
    }
  }

  /** The slot still holds the child exactly when it was not dropped. */
  lemma HeadIsKept(head: Node?, now: seq<Tree>, next: Node?, rest: seq<Tree>, child: Node)
    requires Linked(head, now, next) && Linked(next, rest, null) && head == child
    requires if child in AllNodes(now) then |now| == 1 && now[0].obj == child else child !in AllNodes(rest)
    ensures child in AllNodes(now)
  {
    hide Represents, Nodes;
    if now != [] {
      NodesAt(now, 0);
    } else if rest != [] {
      NodesAt(rest, 0);
    }
  }

  // ---- Dropping ignored objects ----

  /** The first of the trees, pruned: the loop either passes it or meets its children. */
  lemma PrunedStep(todo: seq<Tree>, gone: set<Node>)
    requires todo != [] && Apart(todo)
    ensures
      var now, rest := PrunedTree(todo[0], gone), todo[1..];
      && Pruned(todo, gone) == now + Pruned(rest, gone) == Pruned(now + rest, gone)
      && AllNodes(now) == Nodes(todo[0]) - gone && Apart(now)
      && (todo[0].obj in AllNodes(now) <==> todo[0].obj !in gone)
      && (todo[0].obj !in gone ==> |now| == 1 && now[0].obj == todo[0].obj)
      && AllSizes(todo) == Size(todo[0]) + AllSizes(rest)
      && (todo[0].obj in gone ==> AllSizes(now + rest) < AllSizes(todo))
      && AllSizes(rest) < AllSizes(todo)
  {
    hide AllNodes, Apart;
    var now, rest := PrunedTree(todo[0], gone), todo[1..];
    assert [todo[0]] + rest == todo;
    JoinedApart([todo[0]], rest);
    OneTree(todo[0]);
    PrunedTreeNodes(todo[0], gone);
    PrunedTreeApart(todo[0], gone);
    PrunedJoined(now, rest, gone);
    PrunedAlready(now, gone);
    JoinedSizes(now, rest);
  }

  /** `remove_ignored`: exactly the ignored objects below the root go, and their children take their
      places. The result is what the slot is given. */
  method RemoveIgnored(o: Node, root: Node, ignored: set<ObjType>, ghost t: Tree, ghost gone: set<Node>,
      ghost all: set<Node>)
    returns (head: Node?)
    requires t.obj == o && Single(t) && Represents(t) && Nodes(t) <= all
    requires forall n :: n in Nodes(t) ==> (n in gone <==> n != root && n.typ in ignored)
    modifies Nodes(t)`firstChild, AllNodes(t.children)`nextSibling
    ensures Linked(head, PrunedTree(t, gone), o.nextSibling)
    decreases Size(t)
  {
    hide Represents, Linked, Apart, Single, Nodes, AllNodes, Pruned, PrunedTree, AllSizes, Walking;
    TreeParts(t);
    WalkStart(o, t);
    var child, prev: Node? := o.firstChild, null;
    ghost var done, todo := [], t.children;
    assert done + Pruned(todo, gone) == Pruned(t.children, gone);
    while child != null
      invariant Walking(o, t, child, prev, done, todo)
      invariant done + Pruned(todo, gone) == Pruned(t.children, gone)
      invariant AllSizes(todo) <= AllSizes(t.children)
      decreases AllSizes(todo)
    {
      WalkChild(o, t, child, prev, done, todo);
      PrunedStep'(o, t, child, prev, done, todo, gone);
      ghost var now := PrunedTree(todo[0], gone);
      ghost var next, before := child.nextSibling, todo;
      var h := RemoveIgnored(child, root, ignored, todo[0], gone, all);
      child, prev, done, todo := WalkOn(o, child, h, prev, t, done, todo, now, next, all);
      assert done + Pruned(todo, gone) == Pruned(t.children, gone);
    }
    WalkEnd(o, t, prev, done, todo);
    NothingToPrune(gone);
    ghost var t' := Tree(o, t.cpuset, t.complete, done);
    assert done == Pruned(t.children, gone);
    head := DropOrKeep(o, o != root && o.typ in ignored, t, t');
    PrunedParts(t, gone);
  }

  lemma TreeParts(t: Tree)
    ensures Nodes(t) == {t.obj} + AllNodes(t.children) && Size(t) == 1 + AllSizes(t.children)
    ensures Single(t) ==> t.obj !in AllNodes(t.children)
    ensures Represents(t) ==> t.obj.cpuset == t.cpuset && t.obj.complete == t.complete
  {
  }

  lemma PrunedParts(t: Tree, gone: set<Node>)
    ensures PrunedTree(t, gone) == if t.obj in gone then Pruned(t.children, gone)
        else [Tree(t.obj, t.cpuset, t.complete, Pruned(t.children, gone))]
  {
  }

  lemma NothingToPrune(gone: set<Node>)
    ensures Pruned([], gone) == []
  {
  }

  lemma PrunedStep'(o: Node, t: Tree, child: Node, prev: Node?, done: seq<Tree>, todo: seq<Tree>, gone: set<Node>)
    requires Walking(o, t, child, prev, done, todo)
    ensures todo != [] && Apart(todo)
    ensures
      var now, rest := PrunedTree(todo[0], gone), todo[1..];
      && Pruned(todo, gone) == now + Pruned(rest, gone) == Pruned(now + rest, gone)
      && AllNodes(now) == Nodes(todo[0]) - gone && Apart(now)
      && (todo[0].obj in AllNodes(now) <==> todo[0].obj !in gone)
      && (todo[0].obj !in gone ==> |now| == 1 && now[0].obj == todo[0].obj)
      && (todo[0].obj in gone ==> AllSizes(now + rest) < AllSizes(todo))
      && AllSizes(rest) < AllSizes(todo)
  {
    hide AllNodes, Nodes, Apart, PrunedTree, Pruned, AllSizes;
    WalkChild(o, t, child, prev, done, todo);
    JoinedApart(done, todo);
    PrunedStep(todo, gone);
  }

  /** The end of the walks: the object is unlinked, or the slot keeps it. */
  method DropOrKeep(o: Node, drop: bool, ghost t: Tree, ghost t': Tree) returns (head: Node?)
    requires t'.obj == o && Linked(o.firstChild, t'.children, null) && Apart(t'.children)
    requires o.cpuset == t'.cpuset && o.complete == t'.complete
    requires AllNodes(t'.children) <= AllNodes(t.children) && o !in AllNodes(t.children)
    modifies AllNodes(t.children)`nextSibling
    ensures o.nextSibling == old(o.nextSibling)
    ensures Linked(head, if drop then t'.children else [t'], o.nextSibling)
  {
    hide AllNodes, Nodes;
    assert Represents(t') && Single(t');
    hide Represents, Apart, Single;
    if drop {
      head := UnlinkSingle(o, t', o.nextSibling);
    } else {
      head := o;
    }
  }

  // ---- Merging with an only child ----

  /** What a walk leaves of a tree: after the children, an object with one child left is replaced by
      it, or takes its children, if one of the two is of a type that only keeps structure. */
  ghost function Merged(t: Tree, keep: set<ObjType>): Tree
    decreases t, 0
  {
    var kids := AllMerged(t.children, keep);
    if |kids| == 1 && t.obj.typ in keep then kids[0]
    else if |kids| == 1 && kids[0].obj.typ in keep then Tree(t.obj, t.cpuset, t.complete, kids[0].children)
    else Tree(t.obj, t.cpuset, t.complete, kids)
  }

  ghost function AllMerged(ts: seq<Tree>, keep: set<ObjType>): (r: seq<Tree>)
    ensures |r| == |ts|
    decreases ts, 1
  {
    if ts == [] then [] else [Merged(ts[0], keep)] + AllMerged(ts[1..], keep)
  }

  /** No object with one child is left where one of the two could go. */
  ghost predicate Structured(t: Tree, keep: set<ObjType>)
    decreases t, 0
  {
    && (|t.children| == 1 ==> t.obj.typ !in keep && t.children[0].obj.typ !in keep)
    && AllStructured(t.children, keep)
  }

  ghost predicate AllStructured(ts: seq<Tree>, keep: set<ObjType>)
    decreases ts, 1
  {
    ts != [] ==> Structured(ts[0], keep) && AllStructured(ts[1..], keep)
  }

  lemma {:induction false} MergedIsStructured(t: Tree, keep: set<ObjType>)
    ensures Structured(Merged(t, keep), keep)
    decreases t, 0
  {
    AllMergedStructured(t.children, keep);
    var kids := AllMerged(t.children, keep);
    if |kids| == 1 {
      assert Structured(kids[0], keep);
    }
  }

  lemma {:induction false} AllMergedStructured(ts: seq<Tree>, keep: set<ObjType>)
    ensures AllStructured(AllMerged(ts, keep), keep)
    decreases ts, 1
  {
    hide Structured, Merged;
    if ts != [] {
      MergedIsStructured(ts[0], keep);
      AllMergedStructured(ts[1..], keep);
      assert AllMerged(ts, keep)[1..] == AllMerged(ts[1..], keep);
    }
  }

  /** A second walk changes nothing. */
  lemma {:induction false} StructuredStays(t: Tree, keep: set<ObjType>)
    requires Structured(t, keep)
    ensures Merged(t, keep) == t
    decreases t, 0
  {
    AllStructuredStay(t.children, keep);
  }

  lemma {:induction false} AllStructuredStay(ts: seq<Tree>, keep: set<ObjType>)
    requires AllStructured(ts, keep)
    ensures AllMerged(ts, keep) == ts
    decreases ts, 1
  {
    hide Structured, Merged;
    if ts != [] {
      StructuredStays(ts[0], keep);
      AllStructuredStay(ts[1..], keep);
      assert [ts[0]] + ts[1..] == ts;
    }
  }

  // ---- Merging takes objects out ----

  /** The objects that go. */
  ghost function Gone(t: Tree, keep: set<ObjType>): set<Node>
    decreases t, 0
  {
    var kids := AllMerged(t.children, keep);
    AllGone(t.children, keep)
    + if |kids| == 1 && t.obj.typ in keep then {t.obj}
      else if |kids| == 1 && kids[0].obj.typ in keep then {kids[0].obj}
      else {}
  }

  ghost function AllGone(ts: seq<Tree>, keep: set<ObjType>): set<Node>
    decreases ts, 1
  {
    if ts == [] then {} else Gone(ts[0], keep) + AllGone(ts[1..], keep)
  }

  /** Only objects of the keep-structure types go, and only those of the tree. */
  lemma {:induction false} GoneAreKept(t: Tree, keep: set<ObjType>)
    ensures Gone(t, keep) <= Nodes(t) && forall n :: n in Gone(t, keep) ==> n.typ in keep
    ensures Merged(t, keep).obj in Nodes(t) && (Merged(t, keep).obj == t.obj || t.obj in Gone(t, keep))
    decreases t, 0
  {
    AllGoneAreKept(t.children, keep);
    var kids := AllMerged(t.children, keep);
    if |kids| == 1 {
      GoneAreKept(t.children[0], keep);
      assert kids[0] == Merged(t.children[0], keep);
      NodesAt(t.children, 0);
    }
  }

  lemma {:induction false} AllGoneAreKept(ts: seq<Tree>, keep: set<ObjType>)
    ensures AllGone(ts, keep) <= AllNodes(ts) && forall n :: n in AllGone(ts, keep) ==> n.typ in keep
    decreases ts, 1
  {
    hide Gone, Nodes, AllNodes, Merged;
    AllNodesFirst(ts);
    if ts != [] {
      GoneAreKept(ts[0], keep);
      AllGoneAreKept(ts[1..], keep);
    }
  }

  lemma {:induction false} PrunedTwice(ts: seq<Tree>, a: set<Node>, b: set<Node>)
    ensures Pruned(Pruned(ts, a), b) == Pruned(ts, a + b)
    decreases ts
  {
    if ts != [] {
      var t := ts[0];
      PrunedTwice(t.children, a, b);
      PrunedTwice(ts[1..], a, b);
      PrunedJoined(PrunedTree(t, a), Pruned(ts[1..], a), b);
      if t.obj !in a {
        OnePruned(Tree(t.obj, t.cpuset, t.complete, Pruned(t.children, a)), b);
      }
    }
  }

  lemma OnePruned(t: Tree, gone: set<Node>)
    ensures Pruned([t], gone) == PrunedTree(t, gone)
  {
    assert [t][1..] == [] && PrunedTree(t, gone) + [] == PrunedTree(t, gone);
  }

  /** Only the objects that are there matter. */
  lemma {:induction false} PrunedSame(ts: seq<Tree>, a: set<Node>, b: set<Node>)
    requires forall n :: n in AllNodes(ts) ==> (n in a <==> n in b)
    ensures Pruned(ts, a) == Pruned(ts, b)
    decreases ts
  {
    hide AllNodes;
    AllNodesFirst(ts);
    if ts != [] {
      var t := ts[0];
      assert t.obj in Nodes(t) && AllNodes(t.children) <= Nodes(t);
      PrunedSame(t.children, a, b);
      PrunedSame(ts[1..], a, b);
    }
  }

  lemma {:induction false} AllMergedPruned(ts: seq<Tree>, keep: set<ObjType>)
    requires Apart(ts)
    ensures Pruned(ts, AllGone(ts, keep)) == AllMerged(ts, keep)
    decreases ts, 1
  {
    hide Gone, Nodes, AllNodes, Merged, Single, PrunedTree;
    if ts != [] {
      var t, rest := ts[0], ts[1..];
      assert [t] + rest == ts;
      JoinedApart([t], rest);
      OneTree(t);
      AllNodesFirst(ts);
      MergedIsPruned(t, keep);
      AllMergedPruned(rest, keep);
      GoneAreKept(t, keep);
      AllGoneAreKept(rest, keep);
      var gone := AllGone(ts, keep);
      PrunedSame([t], gone, Gone(t, keep));
      PrunedSame(rest, gone, AllGone(rest, keep));
      OnePruned(t, gone);
      OnePruned(t, Gone(t, keep));
    }
  }

  /** Merging is taking out the objects that go: so the others keep their order and ancestry. */
  lemma {:induction false} MergedIsPruned(t: Tree, keep: set<ObjType>)
    requires Single(t)
    ensures PrunedTree(t, Gone(t, keep)) == [Merged(t, keep)]
    decreases t, 0
  {
    hide Nodes, AllNodes;
    AllMergedPruned(t.children, keep);
    AllGoneAreKept(t.children, keep);
    var kids := AllMerged(t.children, keep);
    var below := AllGone(t.children, keep);
    if |kids| == 1 && t.obj.typ in keep {
      PrunedSame(t.children, below + {t.obj}, below);
    } else if |kids| == 1 && kids[0].obj.typ in keep {
      var kid := kids[0];
      PrunedNodes(t.children, below);
      OneTree(kid);
      assert kids == [kid];
      assert kid.obj in Nodes(kid) by { NodesAt([kid], 0); }
      assert kid.obj != t.obj;
      PrunedTwice(t.children, below, {kid.obj});
      OnePruned(kid, {kid.obj});
      PrunedApart(t.children, below);
      OnlyRoot(kid);
      assert Gone(t, keep) == below + {kid.obj} && t.obj !in Gone(t, keep);
    } else {
      assert Gone(t, keep) == below;
    }
  }

  lemma OnlyRoot(t: Tree)
    requires Single(t)
    ensures PrunedTree(t, {t.obj}) == t.children
  {
    PrunedAlready(t.children, {t.obj});
  }

  lemma MergedSize(t: Tree, keep: set<ObjType>)
    requires Single(t)
    ensures Size(Merged(t, keep)) <= Size(t) && Single(Merged(t, keep))
        && Nodes(Merged(t, keep)) == Nodes(t) - Gone(t, keep)
    ensures Merged(t, keep).obj != t.obj ==> Size(Merged(t, keep)) < Size(t) && t.obj !in Nodes(Merged(t, keep))
  {
    hide Nodes, AllNodes, Apart, Single, Merged, Gone, Size;
    MergedIsPruned(t, keep);
    GoneAreKept(t, keep);
    PrunedTreeNodes(t, Gone(t, keep));
    PrunedTreeApart(t, Gone(t, keep));
    OneTree(Merged(t, keep));
  }

  /** The first of the trees, merged: the loop either passes it or meets what has taken its place. */
  lemma MergedStep(o: Node, t: Tree, child: Node, prev: Node?, done: seq<Tree>, todo: seq<Tree>, keep: set<ObjType>)
    requires Walking(o, t, child, prev, done, todo)
    ensures todo != []
    ensures
      var m, rest := Merged(todo[0], keep), todo[1..];
      && AllMerged(todo, keep) == [m] + AllMerged(rest, keep) == AllMerged([m] + rest, keep)
      && AllNodes([m]) <= Nodes(todo[0]) && Apart([m])
      && (todo[0].obj in AllNodes([m]) <==> m.obj == todo[0].obj)
      && (m.obj != todo[0].obj ==> AllSizes([m] + rest) < AllSizes(todo))
      && AllSizes(rest) < AllSizes(todo)
  {
    hide AllNodes, Nodes, Apart, Single, Merged, Structured, Size;
    WalkChild(o, t, child, prev, done, todo);
    var m, rest := Merged(todo[0], keep), todo[1..];
    MergedSize(todo[0], keep);
    TreeParts(todo[0]);
    OneTree(m);
    NodesAt([m], 0);
    MergedIsStructured(todo[0], keep);
    StructuredStays(m, keep);
    assert ([m] + rest)[1..] == rest && ([m] + rest)[0] == m;
    JoinedSizes([m], rest);
  }

  /** `merge_useless_child`. The result is what the slot is given: the object, or its only child. */
  method MergeUselessChild(o: Node, keep: set<ObjType>, ghost t: Tree, ghost all: set<Node>) returns (head: Node)
    requires t.obj == o && Single(t) && Represents(t) && Nodes(t) <= all
    modifies Nodes(t)`firstChild, AllNodes(t.children)`nextSibling
    ensures o.nextSibling == old(o.nextSibling)
    ensures Linked(head, [Merged(t, keep)], o.nextSibling)
    decreases Size(t)
  {
    hide Represents, Linked, Apart, Single, Nodes, AllNodes, Merged, AllMerged, AllSizes, Walking;
    TreeParts(t);
    WalkStart(o, t);
    var child, prev: Node? := o.firstChild, null;
    ghost var done, todo := [], t.children;
    assert done + AllMerged(todo, keep) == AllMerged(t.children, keep);
    while child != null
      invariant Walking(o, t, child, prev, done, todo)
      invariant done + AllMerged(todo, keep) == AllMerged(t.children, keep)
      invariant AllSizes(todo) <= AllSizes(t.children) && o.nextSibling == old(o.nextSibling)
      decreases AllSizes(todo)
    {
      WalkChild(o, t, child, prev, done, todo);
      MergedStep(o, t, child, prev, done, todo, keep);
      ghost var now := [Merged(todo[0], keep)];
      ghost var next := child.nextSibling;
      var h := MergeUselessChild(child, keep, todo[0], all);
      child, prev, done, todo := WalkOn(o, child, h, prev, t, done, todo, now, next, all);
      assert done + AllMerged(todo, keep) == AllMerged(t.children, keep);
    }
    WalkEnd(o, t, prev, done, todo);
    NothingToMerge(keep);
    assert done == AllMerged(t.children, keep);
    head := MergeOnly(o, keep, t, done);
  }

  lemma NothingToMerge(keep: set<ObjType>)
    ensures AllMerged([], keep) == []
  {
  }

  /** The end of the walk: an only child is merged with its parent. */
  method MergeOnly(o: Node, keep: set<ObjType>, ghost t: Tree, ghost kids: seq<Tree>) returns (head: Node)
    requires t.obj == o && kids == AllMerged(t.children, keep) && Linked(o.firstChild, kids, null) && Apart(kids)
    requires o.cpuset == t.cpuset && o.complete == t.complete
    requires AllNodes(kids) <= AllNodes(t.children) && o !in AllNodes(t.children)
    modifies o`firstChild, AllNodes(t.children)`nextSibling
    ensures o.nextSibling == old(o.nextSibling)
    ensures Linked(head, [Merged(t, keep)], o.nextSibling)
  {
    hide AllNodes, Nodes, AllMerged;
    ghost var t' := Tree(o, t.cpuset, t.complete, kids);
    assert Represents(t');
    var child := o.firstChild;
    if child == null {
      return o;
    }
    NodesAt(kids, 0);
    assert kids[0].obj.nextSibling == if 1 < |kids| then kids[1].obj else null;
    if child.nextSibling != null {
      return o;
    }
    assert Represents(kids[0]) && Single(kids[0]);
    if o.typ in keep {
      hide Represents;
      OnlyFirst(o, kids[0]);
      child.nextSibling := o.nextSibling;
      return child;
    } else if child.typ in keep {
      OnlyFirst(o, kids[0]);
      o.firstChild := child.firstChild;
    }
    return o;
  }

  lemma OnlyFirst(o: Node, kid: Tree)
    requires Single(kid)
    ensures kid.obj !in AllNodes(kid.children) && AllNodes(kid.children) <= Nodes(kid)
  {
  }

  // ---- What merging keeps ----

  ghost function Pus(ns: set<Node>): set<Node> {
    set n | n in ns && n.typ == PU
  }

  /** The sets of PUs that objects span. */
  ghost function Spans(ts: seq<Tree>): set<set<Node>>
    decreases ts
  {
    if ts == [] then {} else {Pus(Nodes(ts[0]))} + Spans(ts[0].children) + Spans(ts[1..])
  }

  /** PUs have nothing below them. */
  ghost predicate PuLeaves(ts: seq<Tree>)
    decreases ts
  {
    ts != [] ==> (ts[0].obj.typ == PU ==> ts[0].children == []) && PuLeaves(ts[0].children) && PuLeaves(ts[1..])
  }

  lemma PusOfNodes(t: Tree)
    ensures Pus(Nodes(t)) == Pus(AllNodes(t.children)) + if t.obj.typ == PU then {t.obj} else {}
  {
    hide AllNodes;
  }

  lemma PusJoined(a: set<Node>, b: set<Node>)
    ensures Pus(a + b) == Pus(a) + Pus(b)
  {
  }

  /** Merging keeps the PUs, and every set of PUs that some object spans. */
  lemma {:induction false} SpansKept(t: Tree, keep: set<ObjType>)
    requires Single(t) && PU !in keep && PuLeaves([t])
    ensures Pus(Nodes(Merged(t, keep))) == Pus(Nodes(t))
    ensures Spans([Merged(t, keep)]) == Spans([t])
    decreases t, 0
  {
    hide AllNodes, Nodes;
    var kids := AllMerged(t.children, keep);
    AllSpansKept(t.children, keep);
    MergedSize(t, keep);
    GoneAreKept(t, keep);
    OneSpan(t);
    OneSpan(Merged(t, keep));
    if |kids| == 1 {
      PusOfNodes(t);
      OneSpan(kids[0]);
      assert kids == [kids[0]];
      OneTree(kids[0]);
      OneTree(t.children[0]);
      assert t.children == [t.children[0]];
      PusOfNodes(kids[0]);
    }
  }

  lemma OneSpan(t: Tree)
    ensures Spans([t]) == {Pus(Nodes(t))} + Spans(t.children)
    ensures PuLeaves([t]) <==> (t.obj.typ == PU ==> t.children == []) && PuLeaves(t.children)
  {
    hide Nodes;
    assert [t][1..] == [];
    assert {Pus(Nodes(t))} + Spans(t.children) + {} == {Pus(Nodes(t))} + Spans(t.children);
  }

  lemma {:induction false} AllSpansKept(ts: seq<Tree>, keep: set<ObjType>)
    requires Apart(ts) && PU !in keep && PuLeaves(ts)
    ensures Pus(AllNodes(AllMerged(ts, keep))) == Pus(AllNodes(ts))
    ensures Spans(AllMerged(ts, keep)) == Spans(ts)
    decreases ts, 1
  {
    hide AllNodes, Nodes, Merged, Single;
    AllNodesFirst(ts);
    AllNodesFirst(AllMerged(ts, keep));
    if ts != [] {
      assert [ts[0]] + ts[1..] == ts;
      JoinedApart([ts[0]], ts[1..]);
      OneTree(ts[0]);
      OneSpan(ts[0]);
      SpansKept(ts[0], keep);
      OneSpan(Merged(ts[0], keep));
      AllSpansKept(ts[1..], keep);
      PusJoined(Nodes(ts[0]), AllNodes(ts[1..]));
      PusJoined(Nodes(Merged(ts[0], keep)), AllNodes(AllMerged(ts[1..], keep)));
      assert AllMerged(ts, keep)[1..] == AllMerged(ts[1..], keep);
    }
  }

  // ---- What both keep ----

  /** Removing the ignored objects keeps all others in the same order and ancestry. */
  lemma IgnoredRemovedInOrder(t: Tree, gone: set<Node>)
    ensures Preorder(PrunedTree(t, gone)) == Without(Preorder([t]), gone)
    ensures forall a, b :: a in Nodes(t) - gone && b in Nodes(t) - gone ==>
      (Above(PrunedTree(t, gone), a, b) <==> Above([t], a, b))
  {
    hide Preorder, Without, Above, Nodes;
    OnePruned(t, gone);
    PreorderKept([t], gone);
    forall a, b | a in Nodes(t) - gone && b in Nodes(t) - gone
      ensures Above(PrunedTree(t, gone), a, b) <==> Above([t], a, b)
    {
      AncestryKept([t], gone, a, b);
    }
  }

  /** So does merging, which only removes objects of types to be kept as structure. */
  lemma MergedInOrder(t: Tree, keep: set<ObjType>)
    requires Single(t)
    ensures Preorder([Merged(t, keep)]) == Without(Preorder([t]), Gone(t, keep))
    ensures forall a, b :: a in Nodes(t) - Gone(t, keep) && b in Nodes(t) - Gone(t, keep) ==>
      (Above([Merged(t, keep)], a, b) <==> Above([t], a, b))
    ensures forall n :: n in Gone(t, keep) ==> n.typ in keep
  {
    hide Preorder, Without, Above, Nodes, Merged, Gone;
    MergedIsPruned(t, keep);
    IgnoredRemovedInOrder(t, Gone(t, keep));
    GoneAreKept(t, keep);
  }
}
