/** Trees of objects as values, with the linked objects they stand for (src/topology.c): how sibling
    lists represent them, and what taking objects out of a tree means. */
module Trees {
  import opened ObjTypes

  class Node {
    const typ: ObjType
    var cpuset: set<nat>
    var complete: set<nat>
    var firstChild: Node?
    var nextSibling: Node?

    constructor (typ: ObjType, cpuset: set<nat>, complete: set<nat>)
      ensures this.typ == typ && this.cpuset == cpuset && this.complete == complete
      ensures firstChild == null && nextSibling == null
    {
      this.typ, this.cpuset, this.complete := typ, cpuset, complete;
      firstChild, nextSibling := null, null;
    }
  }

  /** An object, its sets, and what is below it. */
  datatype Tree = Tree(obj: Node, cpuset: set<nat>, complete: set<nat>, children: seq<Tree>)

  ghost function Nodes(t: Tree): set<Node>
    decreases t, 0
  {
    {t.obj} + AllNodes(t.children)
  }

  ghost function AllNodes(ts: seq<Tree>): set<Node>
    decreases ts, 1
  {
    set j, n | 0 <= j < |ts| && n in Nodes(ts[j]) :: n
  }

  lemma NodesAt(ts: seq<Tree>, j: nat)
    requires j < |ts|
    ensures ts[j].obj in AllNodes(ts) && Nodes(ts[j]) <= AllNodes(ts) && AllNodes(ts[j].children) <= AllNodes(ts)
  {
    assert ts[j].obj in Nodes(ts[j]);
    assert forall n :: n in Nodes(ts[j]) ==> n in AllNodes(ts);
  }

  /** No object is there twice. */
  ghost predicate Single(t: Tree)
    decreases t, 0
  {
    t.obj !in AllNodes(t.children) && Apart(t.children)
  }

  ghost predicate Apart(ts: seq<Tree>)
    decreases ts, 1
  {
    && (forall j :: 0 <= j < |ts| ==> Single(ts[j]))
    && (forall i, j :: 0 <= i < j < |ts| ==> Nodes(ts[i]) !! Nodes(ts[j]))
  }

  /** How many objects. */
  ghost function Size(t: Tree): nat
    decreases t, 0
  {
    1 + AllSizes(t.children)
  }

  ghost function AllSizes(ts: seq<Tree>): nat
    decreases ts, 1
  {
    if ts == [] then 0 else Size(ts[0]) + AllSizes(ts[1..])
  }

  // ---- Several trees ----

  lemma JoinedNodes(a: seq<Tree>, b: seq<Tree>)
    ensures AllNodes(a + b) == AllNodes(a) + AllNodes(b)
  {
    hide Nodes;
    var c := a + b;
    forall n | n in AllNodes(c)
      ensures n in AllNodes(a) + AllNodes(b)
    {
      var j :| 0 <= j < |c| && n in Nodes(c[j]);
      if j < |a| {
        NodesAt(a, j);
      } else {
        NodesAt(b, j - |a|);
      }
    }
    forall j | 0 <= j < |a|
      ensures Nodes(a[j]) <= AllNodes(c)
    {
      assert c[j] == a[j];
      NodesAt(c, j);
    }
    forall j | 0 <= j < |b|
      ensures Nodes(b[j]) <= AllNodes(c)
    {
      assert c[|a| + j] == b[j];
      NodesAt(c, |a| + j);
    }
  }

  lemma JoinedApart(a: seq<Tree>, b: seq<Tree>)
    ensures Apart(a + b) <==> Apart(a) && Apart(b) && AllNodes(a) !! AllNodes(b)
  {
    hide Nodes, Single;
    var c := a + b;
    assert forall j :: 0 <= j < |a| ==> c[j] == a[j];
    assert forall j :: 0 <= j < |b| ==> c[|a| + j] == b[j];
    if Apart(c) {
      forall j | 0 <= j < |b|
        ensures Single(b[j])
      {
        assert c[|a| + j] == b[j];
      }
      forall i, j | 0 <= i < |a| && 0 <= j < |b|
        ensures Nodes(a[i]) !! Nodes(b[j])
      {
        assert Nodes(c[i]) !! Nodes(c[|a| + j]);
      }
      forall n | n in AllNodes(a)
        ensures n !in AllNodes(b)
      {
        var i :| 0 <= i < |a| && n in Nodes(a[i]);
      }
      forall i, j | 0 <= i < j < |b|
        ensures Nodes(b[i]) !! Nodes(b[j])
      {
        assert Nodes(c[|a| + i]) !! Nodes(c[|a| + j]);
      }
    }
    if Apart(a) && Apart(b) && AllNodes(a) !! AllNodes(b) {
      forall i, j | 0 <= i < j < |c|
        ensures Nodes(c[i]) !! Nodes(c[j])
      {
        if i < |a| && j >= |a| {
          assert forall n :: n in Nodes(c[i]) ==> n in AllNodes(a);
          assert forall n :: n in Nodes(b[j - |a|]) ==> n in AllNodes(b);
        } else if i >= |a| {
          assert Nodes(b[i - |a|]) !! Nodes(b[j - |a|]);
        }
      }
    }
  }

  lemma {:induction false} JoinedSizes(a: seq<Tree>, b: seq<Tree>)
    ensures AllSizes(a + b) == AllSizes(a) + AllSizes(b)
    decreases |a|
  {
    hide Size;
    if a == [] {
      assert a + b == b;
    } else {
      JoinedSizes(a[1..], b);
      assert (a + b)[1..] == a[1..] + b;
    }
  }

  lemma OneTree(t: Tree)
    ensures AllNodes([t]) == Nodes(t) && AllSizes([t]) == Size(t) && (Apart([t]) <==> Single(t))
  {
    hide Nodes, Single, Size;
    assert [t][1..] == [];
    assert [t][0] == t;
    assert forall n :: n in Nodes(t) ==> n in AllNodes([t]);
  }

  // ---- Trees in memory ----

  /** The object of the tree has its sets and its children. */
  ghost predicate Represents(t: Tree)
    reads {t.obj}`firstChild, {t.obj}`cpuset, {t.obj}`complete, AllNodes(t.children)
    decreases t, 0
  {
    && t.obj.cpuset == t.cpuset && t.obj.complete == t.complete
    && Linked(t.obj.firstChild, t.children, null)
  }

  /** The siblings from `head` up to `end` are these trees. */
  ghost predicate Linked(head: Node?, ts: seq<Tree>, end: Node?)
    reads AllNodes(ts)
    decreases ts, 1
  {
    && head == (if ts == [] then end else ts[0].obj)
    && (forall j {:trigger ts[j].obj.nextSibling} :: 0 <= j < |ts| ==>
          (NodesAt(ts, j); ts[j].obj.nextSibling == if j + 1 < |ts| then ts[j + 1].obj else end))
    && (forall j :: 0 <= j < |ts| ==> (NodesAt(ts, j); Represents(ts[j])))
  }

  lemma LinkedJoined(head: Node?, a: seq<Tree>, middle: Node?, b: seq<Tree>, end: Node?)
    requires Linked(head, a, middle) && Linked(middle, b, end)
    ensures Linked(head, a + b, end)
  {
    hide Represents;
    var c := a + b;
    forall j | 0 <= j < |c|
      ensures c[j].obj.nextSibling == (if j + 1 < |c| then c[j + 1].obj else end) && Represents(c[j])
    {
      assert c[j] == if j < |a| then a[j] else b[j - |a|];
      assert j + 1 < |c| ==> c[j + 1] == if j + 1 < |a| then a[j + 1] else b[j + 1 - |a|];
    }
  }

  lemma LinkedFirst(head: Node?, ts: seq<Tree>, end: Node?)
    requires Linked(head, ts, end) && ts != []
    ensures head == ts[0].obj && Represents(ts[0]) && Linked(ts[0].obj.nextSibling, ts[1..], end)
    ensures Linked(head, [ts[0]], ts[0].obj.nextSibling)
  {
    hide Represents;
    var rest := ts[1..];
    assert forall j :: 0 <= j < |rest| ==> rest[j] == ts[j + 1];
    forall j | 0 <= j < |rest|
      ensures rest[j].obj.nextSibling == (if j + 1 < |rest| then rest[j + 1].obj else end) && Represents(rest[j])
    {
      assert ts[j + 1].obj.nextSibling == if j + 2 < |ts| then ts[j + 2].obj else end;
    }
  }

  lemma LinkAt(head: Node?, ts: seq<Tree>, end: Node?, k: nat)
    requires Linked(head, ts, end) && k < |ts|
    ensures ts[k].obj.nextSibling == if k + 1 < |ts| then ts[k + 1].obj else end
  {
  }

  /** Write the last link of a list. */
  method SetEnd(last: Node, x: Node?, ghost head: Node?, ghost ts: seq<Tree>, ghost end: Node?)
    requires ts != [] && last == ts[|ts| - 1].obj && Apart(ts) && Linked(head, ts, end)
    modifies last`nextSibling
    ensures Linked(head, ts, x)
  {
    assert forall j :: 0 <= j < |ts| ==> ts[j].obj in Nodes(ts[j]);
    assert forall j :: 0 <= j < |ts| ==> Single(ts[j]);
    last.nextSibling := x;
    forall j | 0 <= j < |ts|
      ensures Represents(ts[j])
    {
      assert old(Represents(ts[j]));
      assert last !in AllNodes(ts[j].children) by {
        if j < |ts| - 1 {
          assert Nodes(ts[j]) !! Nodes(ts[|ts| - 1]);
        }
      }
    }
  }

  /** `unlink_and_free_single_object`: the object goes, its children take its place. */
  method UnlinkSingle(o: Node, ghost t: Tree, ghost next: Node?) returns (head: Node?)
    requires t.obj == o && Single(t) && Represents(t) && o.nextSibling == next
    modifies AllNodes(t.children)`nextSibling
    ensures Linked(head, t.children, next)
  {
    ghost var ts := t.children;
    var child := o.firstChild;
    if child == null {
      return o.nextSibling;
    }
    head := child;
    ghost var k := 0;
    while child.nextSibling != null
      invariant 0 <= k < |ts| && child == ts[k].obj && Linked(head, ts, null)
      decreases |ts| - k
    {
      LinkAt(head, ts, null, k);
      child := child.nextSibling;
      k := k + 1;
    }
    LinkAt(head, ts, null, k);
    NodesAt(ts, k);
    SetEnd(child, o.nextSibling, head, ts, null);
  }

  /** `*slot = head`, where the slot is the first child of `o` or the next sibling of the last object
      that the loop has passed. */
  method WriteSlot(o: Node, prev: Node?, head: Node?, ghost done: seq<Tree>, ghost at: Node?)
    requires Linked(o.firstChild, done, at) && Apart(done) && o !in AllNodes(done)
    requires prev == if done == [] then null else done[|done| - 1].obj
    modifies o`firstChild, (if prev == null then {} else {prev})`nextSibling
    ensures Linked(o.firstChild, done, head)
  {
    if prev == null {
      o.firstChild := head;
    } else {
      SetEnd(prev, head, o.firstChild, done, at);
    }
  }

  // ---- Taking objects out ----

  /** The trees without some objects, whose children take their place. */
  ghost function Pruned(ts: seq<Tree>, gone: set<Node>): seq<Tree>
    decreases ts
  {
    if ts == [] then [] else PrunedTree(ts[0], gone) + Pruned(ts[1..], gone)
  }

  ghost function PrunedTree(t: Tree, gone: set<Node>): seq<Tree>
    decreases t
  {
    var below := Pruned(t.children, gone);
    if t.obj in gone then below else [Tree(t.obj, t.cpuset, t.complete, below)]
  }

  lemma {:induction false} PrunedJoined(a: seq<Tree>, b: seq<Tree>, gone: set<Node>)
    ensures Pruned(a + b, gone) == Pruned(a, gone) + Pruned(b, gone)
    decreases |a|
  {
    hide PrunedTree;
    if a == [] {
      assert a + b == b;
    } else {
      PrunedJoined(a[1..], b, gone);
      assert (a + b)[1..] == a[1..] + b;
    }
  }

  lemma AllNodesFirst(ts: seq<Tree>)
    ensures AllNodes(ts) == if ts == [] then {} else Nodes(ts[0]) + AllNodes(ts[1..])
  {
    hide Nodes;
    if ts != [] {
      JoinedNodes([ts[0]], ts[1..]);
      OneTree(ts[0]);
      assert [ts[0]] + ts[1..] == ts;
    }
  }

  lemma {:induction false} PrunedNodes(ts: seq<Tree>, gone: set<Node>)
    ensures AllNodes(Pruned(ts, gone)) == AllNodes(ts) - gone
    ensures AllSizes(Pruned(ts, gone)) <= AllSizes(ts)
    decreases ts, 1
  {
    hide AllNodes, PrunedTree;
    AllNodesFirst(ts);
    if ts == [] {
      AllNodesFirst(Pruned(ts, gone));
    } else {
      PrunedTreeNodes(ts[0], gone);
      PrunedNodes(ts[1..], gone);
      JoinedNodes(PrunedTree(ts[0], gone), Pruned(ts[1..], gone));
      JoinedSizes(PrunedTree(ts[0], gone), Pruned(ts[1..], gone));
    }
  }

  lemma {:induction false} PrunedTreeNodes(t: Tree, gone: set<Node>)
    ensures AllNodes(PrunedTree(t, gone)) == Nodes(t) - gone
    ensures AllSizes(PrunedTree(t, gone)) <= Size(t)
    ensures t.obj in gone ==> AllSizes(PrunedTree(t, gone)) < Size(t)
    decreases t, 0
  {
    hide AllNodes, Pruned;
    PrunedNodes(t.children, gone);
    if t.obj !in gone {
      OneTree(PrunedTree(t, gone)[0]);
    }
  }

  lemma {:induction false} PrunedApart(ts: seq<Tree>, gone: set<Node>)
    requires Apart(ts)
    ensures Apart(Pruned(ts, gone))
    decreases ts, 1
  {
    hide AllNodes, PrunedTree, Apart, Single;
    if ts == [] {
      NoTrees();
    } else {
      assert [ts[0]] + ts[1..] == ts;
      JoinedApart([ts[0]], ts[1..]);
      OneTree(ts[0]);
      PrunedTreeApart(ts[0], gone);
      PrunedApart(ts[1..], gone);
      PrunedTreeNodes(ts[0], gone);
      PrunedNodes(ts[1..], gone);
      JoinedApart(PrunedTree(ts[0], gone), Pruned(ts[1..], gone));
    }
  }

  lemma NoTrees()
    ensures Apart([]) && AllNodes([]) == {}
  {
  }

  lemma {:induction false} PrunedTreeApart(t: Tree, gone: set<Node>)
    requires Single(t)
    ensures Apart(PrunedTree(t, gone))
    decreases t, 0
  {
    hide AllNodes, Pruned, Apart;
    PrunedApart(t.children, gone);
    PrunedNodes(t.children, gone);
    if t.obj !in gone {
      OneTree(PrunedTree(t, gone)[0]);
    }
  }

  /** Trees that have lost their objects already stay as they are. */
  lemma {:induction false} PrunedAlready(ts: seq<Tree>, gone: set<Node>)
    requires AllNodes(ts) !! gone
    ensures Pruned(ts, gone) == ts
    decreases ts
  {
    hide AllNodes;
    AllNodesFirst(ts);
    if ts != [] {
      var t := ts[0];
      assert t.obj in Nodes(t) && AllNodes(t.children) <= Nodes(t);
      PrunedAlready(t.children, gone);
      PrunedAlready(ts[1..], gone);
      assert ts == [t] + ts[1..];
    }
  }

  // ---- What stays ----

  ghost function Subtrees(ts: seq<Tree>): seq<Tree>
    decreases ts
  {
    if ts == [] then [] else [ts[0]] + Subtrees(ts[0].children) + Subtrees(ts[1..])
  }

  /** All objects, parents before children. */
  ghost function Preorder(ts: seq<Tree>): seq<Node>
    decreases ts
  {
    if ts == [] then [] else [ts[0].obj] + Preorder(ts[0].children) + Preorder(ts[1..])
  }

  ghost function Without(q: seq<Node>, gone: set<Node>): seq<Node> {
    if q == [] then [] else (if q[0] in gone then [] else [q[0]]) + Without(q[1..], gone)
  }

  lemma WithoutStep(q: seq<Node>, gone: set<Node>)
    ensures Without(q, gone) == if q == [] then [] else (if q[0] in gone then [] else [q[0]]) + Without(q[1..], gone)
  {
  }

  lemma {:induction false} WithoutJoined(a: seq<Node>, b: seq<Node>, gone: set<Node>)
    ensures Without(a + b, gone) == Without(a, gone) + Without(b, gone)
  {
    hide Without;
    WithoutStep(a, gone);
    WithoutStep(a + b, gone);
    if a == [] {
      assert a + b == b;
    } else {
      WithoutJoined(a[1..], b, gone);
      assert (a + b)[1..] == a[1..] + b;
    }
  }

  lemma {:induction false} PreorderJoined(a: seq<Tree>, b: seq<Tree>)
    ensures Preorder(a + b) == Preorder(a) + Preorder(b)
    decreases |a|
  {
    if a == [] {
      assert a + b == b;
    } else {
      PreorderJoined(a[1..], b);
      assert (a + b)[1..] == a[1..] + b;
    }
  }

  lemma PreorderOne(t: Tree)
    ensures Preorder([t]) == [t.obj] + Preorder(t.children)
  {
    assert [t][1..] == [];
    assert [t.obj] + Preorder(t.children) + [] == [t.obj] + Preorder(t.children);
  }

  lemma WithoutOne(n: Node, gone: set<Node>)
    ensures Without([n], gone) == if n in gone then [] else [n]
  {
    assert [n][1..] == [];
  }

  /** The objects that stay are in the same order. */
  lemma {:induction false} PreorderKept(ts: seq<Tree>, gone: set<Node>)
    ensures Preorder(Pruned(ts, gone)) == Without(Preorder(ts), gone)
    decreases ts
  {
    hide Without;
    if ts == [] {
      assert Without([], gone) == [] by { WithoutNone(gone); }
    } else {
      var t := ts[0];
      PreorderKept(t.children, gone);
      PreorderKept(ts[1..], gone);
      WithoutOne(t.obj, gone);
      WithoutJoined([t.obj], Preorder(t.children), gone);
      WithoutJoined([t.obj] + Preorder(t.children), Preorder(ts[1..]), gone);
      PreorderJoined(PrunedTree(t, gone), Pruned(ts[1..], gone));
      if t.obj in gone {
        assert [] + Preorder(Pruned(t.children, gone)) == Preorder(Pruned(t.children, gone));
      } else {
        PreorderOne(PrunedTree(t, gone)[0]);
      }
    }
  }

  lemma WithoutNone(gone: set<Node>)
    ensures Without([], gone) == []
  {
  }

  /** `a` is above `b`. */
  ghost predicate Above(ts: seq<Tree>, a: Node, b: Node)
    decreases ts
  {
    ts != [] &&
    ((ts[0].obj == a && b in AllNodes(ts[0].children)) || Above(ts[0].children, a, b) || Above(ts[1..], a, b))
  }

  lemma {:induction false} AboveJoined(p: seq<Tree>, q: seq<Tree>, a: Node, b: Node)
    ensures Above(p + q, a, b) <==> Above(p, a, b) || Above(q, a, b)
    decreases |p|
  {
    hide AllNodes;
    if p == [] {
      assert p + q == q;
    } else {
      AboveJoined(p[1..], q, a, b);
      assert (p + q)[1..] == p[1..] + q;
    }
  }

  /** The objects that stay are above one another as before. */
  lemma {:induction false} AncestryKept(ts: seq<Tree>, gone: set<Node>, a: Node, b: Node)
    requires a !in gone && b !in gone
    ensures Above(Pruned(ts, gone), a, b) <==> Above(ts, a, b)
    decreases ts
  {
    hide AllNodes;
    if ts != [] {
      var t := ts[0];
      AncestryKept(t.children, gone, a, b);
      AncestryKept(ts[1..], gone, a, b);
      AboveJoined(PrunedTree(t, gone), Pruned(ts[1..], gone), a, b);
      PrunedNodes(t.children, gone);
      if t.obj !in gone {
        var one := PrunedTree(t, gone);
        assert one[1..] == [] && !Above([], a, b);
      }
    }
  }
}
