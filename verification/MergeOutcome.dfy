/** Exactly which objects merging takes away (src/topology.c), told from the tree as it was before. */
module MergeOutcome {
  import opened ObjTypes
  import opened Trees
  import opened Collapse

  /** Going from an object to its only child, and on, one comes to `x`. */
  ghost predicate OnlyChildren(u: Tree, x: Node)
    decreases u
  {
    |u.children| == 1 && (u.children[0].obj == x || OnlyChildren(u.children[0], x))
  }

  /** `x` has an only child itself, or hangs from an object that stays by only-child links. */
  ghost predicate Useless(u: Tree, x: Node, keep: set<ObjType>) {
    (u.obj == x && |u.children| == 1) || (u.obj.typ !in keep && OnlyChildren(u, x))
  }

  ghost predicate SomeUseless(ts: seq<Tree>, x: Node, keep: set<ObjType>) {
    exists u :: u in Subtrees(ts) && Useless(u, x, keep)
  }

  lemma UselessStep(ts: seq<Tree>, x: Node, keep: set<ObjType>)
    requires ts != []
    ensures SomeUseless(ts, x, keep)
      <==> Useless(ts[0], x, keep) || SomeUseless(ts[0].children, x, keep) || SomeUseless(ts[1..], x, keep)
  {
    hide Useless;
    assert forall u :: u in Subtrees(ts) <==> u == ts[0] || u in Subtrees(ts[0].children) || u in Subtrees(ts[1..]);
  }

  lemma OneUseless(t: Tree, x: Node, keep: set<ObjType>)
    ensures SomeUseless([t], x, keep) <==> Useless(t, x, keep) || SomeUseless(t.children, x, keep)
  {
    hide Useless, SomeUseless;
    UselessStep([t], x, keep);
    assert [t][1..] == [];
    NoneUseless(x, keep);
  }

  lemma NoneUseless(x: Node, keep: set<ObjType>)
    ensures !SomeUseless([], x, keep)
  {
  }

  /** The objects that go, from the top down; `hung` when the tree hangs from an object that stays. */
  ghost function Goes(t: Tree, keep: set<ObjType>, hung: bool): set<Node>
    decreases t, 0
  {
    (if t.obj.typ in keep && (|t.children| == 1 || hung) then {t.obj} else {})
    + AllGo(t.children, keep, |t.children| == 1 && (hung || t.obj.typ !in keep))
  }

  ghost function AllGo(ts: seq<Tree>, keep: set<ObjType>, hung: bool): set<Node>
    decreases ts, 1
  {
    if ts == [] then {} else Goes(ts[0], keep, hung) + AllGo(ts[1..], keep, hung)
  }

  /** The object at the top of what merging makes of a tree, if it could go. */
  ghost function Head(t: Tree, keep: set<ObjType>): set<Node> {
    if Merged(t, keep).obj.typ in keep then {Merged(t, keep).obj} else {}
  }

  /** From the bottom up, as the walk does it, the same objects go. */
  lemma {:induction false} GoneFromTheTop(t: Tree, keep: set<ObjType>)
    ensures Goes(t, keep, false) == Gone(t, keep)
    ensures Goes(t, keep, true) == Gone(t, keep) + Head(t, keep)
    decreases t, 0
  {
    var kids := AllMerged(t.children, keep);
    if |t.children| == 1 {
      var c := t.children[0];
      GoneFromTheTop(c, keep);
      OnlyOne(t.children, keep, true);
      OnlyOne(t.children, keep, false);
      assert kids[0] == Merged(c, keep);
    } else {
      AllGoneFromTheTop(t.children, keep);
    }
  }

  lemma OnlyOne(ts: seq<Tree>, keep: set<ObjType>, hung: bool)
    requires |ts| == 1
    ensures AllGo(ts, keep, hung) == Goes(ts[0], keep, hung) && AllGone(ts, keep) == Gone(ts[0], keep)
  {
    hide Goes, Gone;
    assert ts[1..] == [];
  }

  lemma {:induction false} AllGoneFromTheTop(ts: seq<Tree>, keep: set<ObjType>)
    ensures AllGo(ts, keep, false) == AllGone(ts, keep)
    decreases ts, 1
  {
    hide Goes, Gone;
    if ts != [] {
      GoneFromTheTop(ts[0], keep);
      AllGoneFromTheTop(ts[1..], keep);
    }
  }

  lemma {:induction false} GoesMeans(t: Tree, keep: set<ObjType>, hung: bool, x: Node)
    ensures x in Goes(t, keep, hung)
      <==> x.typ in keep && (SomeUseless([t], x, keep) || (hung && (x == t.obj || OnlyChildren(t, x))))
    decreases t, 0
  {
    hide SomeUseless;
    OneUseless(t, x, keep);
    var below := |t.children| == 1 && (hung || t.obj.typ !in keep);
    if |t.children| == 1 {
      assert t.children == [t.children[0]];
      GoesMeans(t.children[0], keep, below, x);
      OnlyOne(t.children, keep, below);
    } else {
      AllGoMeans(t.children, keep, x);
    }
  }

  lemma {:induction false} AllGoMeans(ts: seq<Tree>, keep: set<ObjType>, x: Node)
    ensures x in AllGo(ts, keep, false) <==> x.typ in keep && SomeUseless(ts, x, keep)
    decreases ts, 1
  {
    hide SomeUseless, Goes, Useless;
    if ts == [] {
      NoneUseless(x, keep);
    } else {
      GoesMeans(ts[0], keep, false, x);
      AllGoMeans(ts[1..], keep, x);
      UselessStep(ts, x, keep);
      OneUseless(ts[0], x, keep);
    }
  }

  /** Of the objects of a tree, exactly those of keep-structure types go that have an only child, or that
      hang by only-child links from an object of another type. */
  lemma MergedGoes(t: Tree, keep: set<ObjType>, x: Node)
    requires Single(t) && x in Nodes(t)
    ensures x !in Nodes(Merged(t, keep)) <==> x.typ in keep && SomeUseless([t], x, keep)
  {
    hide Nodes, Merged, SomeUseless, Goes, Gone;
    GoneFromTheTop(t, keep);
    GoesMeans(t, keep, false, x);
    MergedSize(t, keep);
  }

  /** An object with an only child, of a keep-structure type, goes in favour of the child. */
  lemma ParentsGo(t: Tree, keep: set<ObjType>, u: Tree)
    requires Single(t) && u in Subtrees([t]) && |u.children| == 1 && u.obj.typ in keep
    ensures u.obj !in Nodes(Merged(t, keep))
  {
    hide Nodes, Merged, Subtrees, SomeUseless;
    SubtreeNodes([t], u);
    OneNode(t);
    assert SomeUseless([t], u.obj, keep) by {
      WitnessUseless([t], u, keep);
    }
    MergedGoes(t, keep, u.obj);
  }

  lemma WitnessUseless(ts: seq<Tree>, u: Tree, keep: set<ObjType>)
    requires u in Subtrees(ts) && |u.children| == 1
    ensures SomeUseless(ts, u.obj, keep)
  {
    hide Subtrees;
    assert Useless(u, u.obj, keep);
  }

  lemma OneNode(t: Tree)
    ensures AllNodes([t]) == Nodes(t)
  {
    hide Nodes;
    AllNodesFirst([t]);
    assert [t][1..] == [];
    AllNodesFirst([]);
  }

  lemma {:induction false} SubtreeNodes(ts: seq<Tree>, u: Tree)
    requires u in Subtrees(ts)
    ensures u.obj in AllNodes(ts)
    decreases ts
  {
    hide AllNodes;
    AllNodesFirst(ts);
    if u in Subtrees(ts[0].children) {
      SubtreeNodes(ts[0].children, u);
    } else if u != ts[0] {
      SubtreeNodes(ts[1..], u);
    }
  }

  /** A real run: of a NUMA node and its only socket, both of types that only keep structure, the
      socket stays. */
  method SocketStays() returns (numa: Node, socket: Node, head: Node)
    ensures numa.typ == NumaNode && socket.typ == Socket && head == socket
    ensures socket.nextSibling == null && socket.firstChild == null
  {
    numa := new Node(NumaNode, {0}, {0});
    socket := new Node(Socket, {0}, {0});
    numa.firstChild := socket;
    ghost var leaf := Tree(socket, {0}, {0}, []);
    ghost var t := Tree(numa, {0}, {0}, [leaf]);
    NodesOfTwo(t, leaf);
    TwoLinked(t, leaf);
    hide Represents, Nodes, AllNodes, Linked, Single, Merged;
    head := MergeUselessChild(numa, {NumaNode, Socket}, t, Nodes(t));
    MergedTwo(t, leaf);
    LeafLinked(head, leaf);
  }

  lemma TwoLinked(t: Tree, leaf: Tree)
    requires leaf.children == [] && t.children == [leaf]
    requires leaf.obj.cpuset == leaf.cpuset && leaf.obj.complete == leaf.complete && leaf.obj.firstChild == null
    requires t.obj.cpuset == t.cpuset && t.obj.complete == t.complete && t.obj.firstChild == leaf.obj
    requires leaf.obj.nextSibling == null
    ensures Represents(t)
  {
    assert Represents(leaf);
    assert t.children[0].obj.nextSibling == null;
    assert Linked(leaf.obj, t.children, null);
  }

  lemma LeafLinked(head: Node?, leaf: Tree)
    requires leaf.children == [] && Linked(head, [leaf], null)
    ensures head == leaf.obj && leaf.obj.nextSibling == null && leaf.obj.firstChild == null
  {
    assert [leaf][0].obj.nextSibling == null && Represents([leaf][0]);
    assert Linked(leaf.obj.firstChild, [], null);
  }

  lemma NodesOfTwo(t: Tree, leaf: Tree)
    requires leaf.children == [] && t.children == [leaf] && t.obj != leaf.obj
    ensures Nodes(t) == {t.obj, leaf.obj} && AllNodes(t.children) == {leaf.obj} && Nodes(leaf) == {leaf.obj}
    ensures Single(t)
  {
    assert AllNodes(leaf.children) == {};
    AllNodesFirst([leaf]);
    assert [leaf][1..] == [];
    AllNodesFirst([]);
    assert Single(leaf) && t.children[0] == leaf;
  }

  lemma MergedTwo(t: Tree, leaf: Tree)
    requires leaf.children == [] && t.children == [leaf] && t.obj.typ == NumaNode
    ensures Merged(t, {NumaNode, Socket}) == leaf
  {
    assert AllMerged([], {NumaNode, Socket}) == [];
    assert Merged(leaf, {NumaNode, Socket}) == leaf;
    assert [leaf][1..] == [];
  }
}
