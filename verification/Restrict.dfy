/** Restricting a topology to a set of CPUs (src/topology.c): sets are cut, objects left without CPUs
    are dropped while the tree is walked, and subtrees that nothing is cut from are skipped. */
module Restrict {
  import opened ObjTypes
  import opened Trees
  import opened Collapse

  type CpuTest = nat -> bool

  function Cut(s: set<nat>, keep: CpuTest): set<nat> {
    set i | i in s && keep(i)
  }

  datatype Flags = Flags(adaptMisc: bool, adaptIo: bool)

  /** Whether an object goes. */
  function Drops(typ: ObjType, cut: set<nat>, flags: Flags, droppingParent: bool): bool {
    if typ == Misc then droppingParent && !flags.adaptMisc
    else if IsIo(typ) then droppingParent && !flags.adaptIo
    else droppingParent || cut == {}
  }

  function Modified(complete: set<nat>, keep: CpuTest): bool {
    exists i :: i in complete && !keep(i)
  }

  // ---- What the walk does ----

  /** What is left of a tree, with the sets of its object cut. */
  ghost function Restricted(t: Tree, keep: CpuTest, flags: Flags, droppingParent: bool): (r: seq<Tree>)
    ensures AllSizes(r) <= Size(t)
    ensures Drops(t.obj.typ, Cut(t.cpuset, keep), flags, droppingParent) ==> AllSizes(r) < Size(t)
    ensures !Drops(t.obj.typ, Cut(t.cpuset, keep), flags, droppingParent) ==> |r| == 1 && r[0].obj == t.obj
    decreases Size(t), 0
  {
    var cut := Cut(t.cpuset, keep);
    var dropping := Drops(t.obj.typ, cut, flags, droppingParent);
    var kids := if Modified(t.complete, keep) then AllRestricted(t.children, keep, flags, dropping) else t.children;
    if dropping then kids
    else
      var r := Tree(t.obj, cut, Cut(t.complete, keep), kids);
      OneTree(r);
      [r]
  }

  /** The loop goes on with what has taken the place of a dropped child. */
  ghost function AllRestricted(ts: seq<Tree>, keep: CpuTest, flags: Flags, dropping: bool): (r: seq<Tree>)
    ensures AllSizes(r) <= AllSizes(ts)
    decreases AllSizes(ts), 1
  {
    if ts == [] then [] else
    var now := Restricted(ts[0], keep, flags, dropping);
    JoinedSizes(now, ts[1..]);
    if Drops(ts[0].obj.typ, Cut(ts[0].cpuset, keep), flags, dropping)
        then AllRestricted(now + ts[1..], keep, flags, dropping)
    else
      JoinedSizes(now, AllRestricted(ts[1..], keep, flags, dropping));
      now + AllRestricted(ts[1..], keep, flags, dropping)
  }

  lemma {:induction false} RestrictedNodes(t: Tree, keep: CpuTest, flags: Flags, droppingParent: bool)
    requires Single(t)
    ensures
      var r := Restricted(t, keep, flags, droppingParent);
      && AllNodes(r) <= Nodes(t) && Apart(r)
      && (t.obj in AllNodes(r) <==> !Drops(t.obj.typ, Cut(t.cpuset, keep), flags, droppingParent))
    decreases Size(t), 0
  {
    hide AllNodes, Apart;
    var cut := Cut(t.cpuset, keep);
    var dropping := Drops(t.obj.typ, cut, flags, droppingParent);
    if Modified(t.complete, keep) {
      AllRestrictedNodes(t.children, keep, flags, dropping);
    }
    var kids := if Modified(t.complete, keep) then AllRestricted(t.children, keep, flags, dropping) else t.children;
    OneTree(Tree(t.obj, cut, Cut(t.complete, keep), kids));
  }

  lemma {:induction false} AllRestrictedNodes(ts: seq<Tree>, keep: CpuTest, flags: Flags, dropping: bool)
    requires Apart(ts)
    ensures AllNodes(AllRestricted(ts, keep, flags, dropping)) <= AllNodes(ts)
        && Apart(AllRestricted(ts, keep, flags, dropping))
    decreases AllSizes(ts), 1
  {
    hide AllNodes, Apart, Single, Nodes, Size, Restricted;
    AllNodesFirst(ts);
    if ts != [] {
      var t, rest := ts[0], ts[1..];
      assert [t] + rest == ts;
      JoinedApart([t], rest);
      OneTree(t);
      TreeParts(t);
      RestrictedNodes(t, keep, flags, dropping);
      var now := Restricted(t, keep, flags, dropping);
      JoinedApart(now, rest);
      JoinedNodes(now, rest);
      JoinedSizes(now, rest);
      if Drops(t.obj.typ, Cut(t.cpuset, keep), flags, dropping) {
        AllRestrictedNodes(now + rest, keep, flags, dropping);
      } else {
        AllRestrictedNodes(rest, keep, flags, dropping);
        JoinedApart(now, AllRestricted(rest, keep, flags, dropping));
        JoinedNodes(now, AllRestricted(rest, keep, flags, dropping));
      }
    }
  }

  lemma RestrictedStep(o: Node, t: Tree, child: Node, prev: Node?, done: seq<Tree>, todo: seq<Tree>, keep: CpuTest,
      flags: Flags, dropping: bool)
    requires Walking(o, t, child, prev, done, todo)
    ensures todo != []
    ensures
      var now, rest := Restricted(todo[0], keep, flags, dropping), todo[1..];
      var drops := Drops(todo[0].obj.typ, Cut(todo[0].cpuset, keep), flags, dropping);
      && AllRestricted(todo, keep, flags, dropping)
         == (if drops then AllRestricted(now + rest, keep, flags, dropping)
             else now + AllRestricted(rest, keep, flags, dropping))
      && AllNodes(now) <= Nodes(todo[0]) && Apart(now)
      && (todo[0].obj in AllNodes(now) <==> !drops) && (!drops ==> |now| == 1 && now[0].obj == todo[0].obj)
      && (drops ==> AllSizes(now + rest) < AllSizes(todo))
      && AllSizes(rest) < AllSizes(todo)
  {
    hide AllNodes, Nodes, Apart, Single, Size, Restricted, Drops, Cut;
    WalkChild(o, t, child, prev, done, todo);
    TreeParts(todo[0]);
    RestrictedNodes(todo[0], keep, flags, dropping);
    JoinedSizes(Restricted(todo[0], keep, flags, dropping), todo[1..]);
  }

  /** `restrict_object`. The result is what the slot is given. */
  method RestrictObject(o: Node, keep: CpuTest, flags: Flags, droppingParent: bool, ghost t: Tree, ghost all: set<Node>)
    returns (head: Node?)
    requires t.obj == o && Single(t) && Represents(t) && Nodes(t) <= all
    modifies Nodes(t)`firstChild, Nodes(t)`cpuset, Nodes(t)`complete, AllNodes(t.children)`nextSibling
    ensures o.nextSibling == old(o.nextSibling)
    ensures Linked(head, Restricted(t, keep, flags, droppingParent), o.nextSibling)
    decreases Size(t), 0
  {
    hide Represents, Linked, Apart, Single, Nodes, AllNodes, Cut, Drops;
    TreeParts(t);
    ChildrenApart(t);
    var modified := Modified(o.complete, keep);
    ghost var before := o.firstChild;
    o.cpuset := Cut(o.cpuset, keep);
    o.complete := Cut(o.complete, keep);
    var dropping := Drops(o.typ, o.cpuset, flags, droppingParent);
    ghost var kids := t.children;
    if modified {
      kids := RestrictChildren(o, keep, flags, dropping, t, all);
    }
    ghost var t' := Tree(o, Cut(t.cpuset, keep), Cut(t.complete, keep), kids);
    head := DropOrKeep(o, dropping, t, t');
  }

  lemma ChildrenApart(t: Tree)
    requires Single(t)
    ensures Apart(t.children)
    ensures Represents(t) ==> Linked(t.obj.firstChild, t.children, null)
  {
  }

  /** The loop over the children, for an object that something was cut from. */
  method RestrictChildren(o: Node, keep: CpuTest, flags: Flags, dropping: bool, ghost t: Tree, ghost all: set<Node>)
    returns (ghost kids: seq<Tree>)
    requires t.obj == o && Single(t) && Linked(o.firstChild, t.children, null) && Nodes(t) <= all
    modifies Nodes(t)`firstChild, AllNodes(t.children)`cpuset, AllNodes(t.children)`complete,
        AllNodes(t.children)`nextSibling
    ensures o.nextSibling == old(o.nextSibling)
    ensures kids == AllRestricted(t.children, keep, flags, dropping)
    ensures Linked(o.firstChild, kids, null) && Apart(kids) && AllNodes(kids) <= AllNodes(t.children)
    decreases AllSizes(t.children), 1
  {
    hide Represents, Linked, Apart, Single, Nodes, AllNodes, Cut, Drops, Restricted, AllRestricted, AllSizes, Walking;
    TreeParts(t);
    LoopStart(o, t);
    var child, prev: Node? := o.firstChild, null;
    ghost var done, todo := [], t.children;
    assert done + AllRestricted(todo, keep, flags, dropping) == AllRestricted(t.children, keep, flags, dropping);
    while child != null
      invariant Walking(o, t, child, prev, done, todo)
      invariant done + AllRestricted(todo, keep, flags, dropping) == AllRestricted(t.children, keep, flags, dropping)
      invariant AllSizes(todo) <= AllSizes(t.children) && o.nextSibling == old(o.nextSibling)
      decreases AllSizes(todo)
    {
      WalkChild(o, t, child, prev, done, todo);
      RestrictedStep(o, t, child, prev, done, todo, keep, flags, dropping);
      ghost var now := Restricted(todo[0], keep, flags, dropping);
      ghost var next := child.nextSibling;
      var h := RestrictObject(child, keep, flags, dropping, todo[0], all);
      child, prev, done, todo := WalkOn(o, child, h, prev, t, done, todo, now, next, all);
      assert done + AllRestricted(todo, keep, flags, dropping) == AllRestricted(t.children, keep, flags, dropping);
    }
    WalkEnd(o, t, prev, done, todo);
    NothingToRestrict(keep, flags, dropping);
    kids := done;
  }

  lemma LoopStart(o: Node, t: Tree)
    requires t.obj == o && Single(t) && Linked(o.firstChild, t.children, null)
    ensures Walking(o, t, o.firstChild, null, [], t.children)
  {
    assert [] + t.children == t.children;
    NoTrees();
  }

  lemma NothingToRestrict(keep: CpuTest, flags: Flags, dropping: bool)
    ensures AllRestricted([], keep, flags, dropping) == []
  {
  }
}
