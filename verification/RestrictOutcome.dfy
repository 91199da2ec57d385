/** What restricting a topology leaves (src/topology.c), for trees with Misc and I/O objects: which objects
    go, told from the tree as it was before, and that the others stay as they were but for their sets. */
module RestrictOutcome {
  import opened ObjTypes
  import opened Trees
  import opened Collapse
  import opened Restrict
  import opened Collections

  // ---- The trees that are restricted ----

  /** Sets inside those of the parent; only Misc and I/O objects may have none. */
  ghost predicate Placed(t: Tree)
    decreases t, 0
  {
    && (t.obj.typ != Misc && !IsIo(t.obj.typ) ==> t.cpuset != {}) && t.cpuset <= t.complete
    && AllPlaced(t.children, t.cpuset, t.complete)
  }

  ghost predicate AllPlaced(ts: seq<Tree>, cpuset: set<nat>, complete: set<nat>)
    decreases ts, 1
  {
    ts != [] ==>
      && Placed(ts[0]) && ts[0].cpuset <= cpuset && ts[0].complete <= complete
      && AllPlaced(ts[1..], cpuset, complete)
  }

  lemma CutWhole(s: set<nat>, keep: CpuTest)
    ensures !Modified(s, keep) <==> Cut(s, keep) == s
    ensures forall s' :: s' <= s && !Modified(s, keep) ==> !Modified(s', keep)
    ensures forall s' :: s' <= s ==> Cut(s', keep) <= Cut(s, keep)
  {
    if Cut(s, keep) == s {
      forall i | i in s
        ensures keep(i)
      {
        assert i in Cut(s, keep);
      }
    }
  }

  // ---- What is left ----

  /** What is left when no subtree is skipped and no child is looked at twice. */
  ghost function Left(t: Tree, keep: CpuTest, flags: Flags, droppingParent: bool): seq<Tree>
    decreases t, 0
  {
    var drops := Drops(t.obj.typ, Cut(t.cpuset, keep), flags, droppingParent);
    var below := AllLeft(t.children, keep, flags, drops);
    if drops then below else [Tree(t.obj, Cut(t.cpuset, keep), Cut(t.complete, keep), below)]
  }

  ghost function AllLeft(ts: seq<Tree>, keep: CpuTest, flags: Flags, dropping: bool): seq<Tree>
    decreases ts, 1
  {
    if ts == [] then [] else Left(ts[0], keep, flags, dropping) + AllLeft(ts[1..], keep, flags, dropping)
  }

  lemma {:induction false} LeftJoined(p: seq<Tree>, q: seq<Tree>, keep: CpuTest, flags: Flags, dropping: bool)
    ensures AllLeft(p + q, keep, flags, dropping)
      == AllLeft(p, keep, flags, dropping) + AllLeft(q, keep, flags, dropping)
    decreases |p|
  {
    hide Left;
    if p == [] {
      assert p + q == q;
    } else {
      LeftJoined(p[1..], q, keep, flags, dropping);
      assert (p + q)[1..] == p[1..] + q;
    }
  }

  lemma OneLeft(t: Tree, keep: CpuTest, flags: Flags, dropping: bool)
    ensures AllLeft([t], keep, flags, dropping) == Left(t, keep, flags, dropping)
  {
    hide Left;
    assert [t][1..] == [] && Left(t, keep, flags, dropping) + [] == Left(t, keep, flags, dropping);
  }

  /** An object that nothing is cut from stays if its parent does. */
  lemma KeptWhole(t: Tree, keep: CpuTest, flags: Flags)
    requires Placed(t) && !Modified(t.complete, keep)
    ensures !Drops(t.obj.typ, Cut(t.cpuset, keep), flags, false)
    ensures Cut(t.cpuset, keep) == t.cpuset && Cut(t.complete, keep) == t.complete
  {
    hide Modified, Cut;
    CutWhole(t.complete, keep);
    CutWhole(t.cpuset, keep);
  }

  /** Skipping what nothing is cut from is right: it would stay as it is. */
  lemma {:induction false} UnmodifiedStay(ts: seq<Tree>, cpuset: set<nat>, complete: set<nat>, keep: CpuTest,
      flags: Flags)
    requires AllPlaced(ts, cpuset, complete) && !Modified(complete, keep)
    ensures AllLeft(ts, keep, flags, false) == ts
    decreases ts
  {
    hide Modified, Cut, Drops;
    if ts != [] {
      var t := ts[0];
      CutWhole(complete, keep);
      KeptWhole(t, keep, flags);
      UnmodifiedStay(t.children, t.cpuset, t.complete, keep, flags);
      UnmodifiedStay(ts[1..], cpuset, complete, keep, flags);
      assert [t] + ts[1..] == ts;
    }
  }

  ghost predicate NoneDrops(ts: seq<Tree>, keep: CpuTest, flags: Flags, dropping: bool) {
    forall k :: 0 <= k < |ts| ==> !Drops(ts[k].obj.typ, Cut(ts[k].cpuset, keep), flags, dropping)
  }

  /** What has taken the place of a dropped child is looked at again, and stays as it is. */
  lemma {:induction false} LookedAtAgain(now: seq<Tree>, rest: seq<Tree>, cpuset: set<nat>, complete: set<nat>,
      keep: CpuTest, flags: Flags, dropping: bool)
    requires AllPlaced(now, cpuset, complete) && !Modified(complete, keep) && NoneDrops(now, keep, flags, dropping)
    ensures AllRestricted(now + rest, keep, flags, dropping) == now + AllRestricted(rest, keep, flags, dropping)
    decreases |now|
  {
    hide Modified, Cut, Drops, Placed, AllRestricted;
    if now == [] {
      assert now + rest == rest;
    } else {
      var t, more := now[0], now[1..] + rest;
      CutWhole(complete, keep);
      assert !Drops(t.obj.typ, Cut(t.cpuset, keep), flags, dropping);
      assert now + rest == [t] + more;
      StaysWhole(t, keep, flags, dropping, more);
      LookedAtAgain(now[1..], rest, cpuset, complete, keep, flags, dropping);
      assert now == [t] + now[1..];
    }
  }

  lemma StaysWhole(t: Tree, keep: CpuTest, flags: Flags, dropping: bool, more: seq<Tree>)
    requires Placed(t) && !Modified(t.complete, keep) && !Drops(t.obj.typ, Cut(t.cpuset, keep), flags, dropping)
    ensures AllRestricted([t] + more, keep, flags, dropping) == [t] + AllRestricted(more, keep, flags, dropping)
  {
    hide Modified, Cut, Drops, Placed;
    KeptWhole(t, keep, flags);
    assert ([t] + more)[1..] == more && Restricted(t, keep, flags, dropping) == [t];
  }

  /** Below an object that goes, only objects stay that would stay anywhere. */
  lemma {:induction false} LeftIsMovable(ts: seq<Tree>, keep: CpuTest, flags: Flags, dropping: bool)
    ensures NoneDrops(AllLeft(ts, keep, flags, true), keep, flags, dropping)
    decreases ts
  {
    hide Cut;
    if ts != [] {
      LeftIsMovable(ts[0].children, keep, flags, dropping);
      LeftIsMovable(ts[1..], keep, flags, dropping);
    }
  }

  lemma {:induction false} PlacedJoined(p: seq<Tree>, q: seq<Tree>, cpuset: set<nat>, complete: set<nat>)
    requires AllPlaced(p, cpuset, complete) && AllPlaced(q, cpuset, complete)
    ensures AllPlaced(p + q, cpuset, complete)
    decreases |p|
  {
    hide Placed;
    if p == [] {
      assert p + q == q;
    } else {
      PlacedJoined(p[1..], q, cpuset, complete);
      assert (p + q)[1..] == p[1..] + q;
    }
  }

  lemma {:induction false} PlacedWider(ts: seq<Tree>, cpuset: set<nat>, complete: set<nat>, cpuset': set<nat>,
      complete': set<nat>)
    requires AllPlaced(ts, cpuset, complete) && cpuset <= cpuset' && complete <= complete'
    ensures AllPlaced(ts, cpuset', complete')
    decreases |ts|
  {
    hide Placed;
    if ts != [] {
      PlacedWider(ts[1..], cpuset, complete, cpuset', complete');
    }
  }

  /** What is left is placed again. */
  lemma {:induction false} LeftPlaced(ts: seq<Tree>, keep: CpuTest, flags: Flags, dropping: bool, cpuset: set<nat>,
      complete: set<nat>)
    requires AllPlaced(ts, cpuset, complete)
    ensures AllPlaced(AllLeft(ts, keep, flags, dropping), Cut(cpuset, keep), Cut(complete, keep))
    decreases ts
  {
    hide Cut, IsIo;
    if ts != [] {
      var t := ts[0];
      var drops := Drops(t.obj.typ, Cut(t.cpuset, keep), flags, dropping);
      CutInside(t.cpuset, cpuset, keep);
      CutInside(t.complete, complete, keep);
      CutInside(t.cpuset, t.complete, keep);
      LeftPlaced(t.children, keep, flags, drops, t.cpuset, t.complete);
      LeftPlaced(ts[1..], keep, flags, dropping, cpuset, complete);
      PlacedWider(AllLeft(t.children, keep, flags, drops), Cut(t.cpuset, keep), Cut(t.complete, keep),
                  Cut(cpuset, keep), Cut(complete, keep));
      if !drops {
        assert Left(t, keep, flags, dropping)[1..] == [];
      }
      PlacedJoined(Left(t, keep, flags, dropping), AllLeft(ts[1..], keep, flags, dropping), Cut(cpuset, keep),
                   Cut(complete, keep));
    }
  }

  lemma CutInside(s: set<nat>, outer: set<nat>, keep: CpuTest)
    requires s <= outer
    ensures Cut(s, keep) <= Cut(outer, keep)
  {
  }

  lemma CutIsUnmodified(s: set<nat>, keep: CpuTest)
    ensures !Modified(Cut(s, keep), keep)
  {
  }

  /** An object is dropped without its children being looked at only if its parent is. */
  lemma DroppedWhole(t: Tree, keep: CpuTest, flags: Flags, dropping: bool)
    requires Placed(t) && !Modified(t.complete, keep) && Drops(t.obj.typ, Cut(t.cpuset, keep), flags, dropping)
    ensures dropping
  {
    hide Cut, Modified;
    KeptWhole(t, keep, flags);
  }

  /** The walk skips subtrees and looks at some children twice, but leaves what it should. */
  lemma {:induction false} RestrictedIsLeft(t: Tree, keep: CpuTest, flags: Flags, dropping: bool)
    requires Placed(t)
    ensures !Drops(t.obj.typ, Cut(t.cpuset, keep), flags, dropping)
      ==> Restricted(t, keep, flags, dropping) == Left(t, keep, flags, dropping)
    ensures Drops(t.obj.typ, Cut(t.cpuset, keep), flags, dropping) && Modified(t.complete, keep)
      ==> Restricted(t, keep, flags, dropping) == AllLeft(t.children, keep, flags, true)
    ensures Drops(t.obj.typ, Cut(t.cpuset, keep), flags, dropping) && !Modified(t.complete, keep)
      ==> Restricted(t, keep, flags, dropping) == t.children
    decreases Size(t), 0
  {
    hide Cut, Modified, AllRestricted, AllLeft, Drops;
    var drops := Drops(t.obj.typ, Cut(t.cpuset, keep), flags, dropping);
    if Modified(t.complete, keep) {
      AllRestrictedIsLeft(t.children, t.cpuset, t.complete, keep, flags, drops);
    } else if !drops {
      UnmodifiedStay(t.children, t.cpuset, t.complete, keep, flags);
    }
  }

  lemma {:induction false} AllRestrictedIsLeft(ts: seq<Tree>, cpuset: set<nat>, complete: set<nat>, keep: CpuTest,
      flags: Flags, dropping: bool)
    requires AllPlaced(ts, cpuset, complete)
    ensures AllRestricted(ts, keep, flags, dropping) == AllLeft(ts, keep, flags, dropping)
    decreases AllSizes(ts), 1
  {
    hide Cut, Modified, Drops, Placed, Restricted;
    if ts != [] {
      var t, rest := ts[0], ts[1..];
      var now := Restricted(t, keep, flags, dropping);
      FirstSize(ts);
      RestrictedIsLeft(t, keep, flags, dropping);
      AllRestrictedIsLeft(rest, cpuset, complete, keep, flags, dropping);
      if Drops(t.obj.typ, Cut(t.cpuset, keep), flags, dropping) {
        PlacedParts(t);
        if Modified(t.complete, keep) {
          LeftPlaced(t.children, keep, flags, true, t.cpuset, t.complete);
          CutIsUnmodified(t.complete, keep);
          LeftIsMovable(t.children, keep, flags, dropping);
          LookedAtAgain(now, rest, Cut(t.cpuset, keep), Cut(t.complete, keep), keep, flags, dropping);
        } else {
          DroppedWhole(t, keep, flags, dropping);
          JoinedSizes(now, rest);
          PlacedWider(now, t.cpuset, t.complete, cpuset, complete);
          PlacedJoined(now, rest, cpuset, complete);
          AllRestrictedIsLeft(now + rest, cpuset, complete, keep, flags, dropping);
          LeftJoined(now, rest, keep, flags, dropping);
        }
      }
    }
  }

  lemma FirstSize(ts: seq<Tree>)
    requires ts != []
    ensures AllSizes(ts) == Size(ts[0]) + AllSizes(ts[1..]) && AllSizes(ts[0].children) < Size(ts[0])
  {
  }

  lemma PlacedParts(t: Tree)
    requires Placed(t)
    ensures AllPlaced(t.children, t.cpuset, t.complete)
  {
  }

  // ---- Which objects go ----

  ghost function Dropped(ts: seq<Tree>, keep: CpuTest, flags: Flags, dropping: bool): set<Node>
    decreases ts
  {
    if ts == [] then {} else
    var drops := Drops(ts[0].obj.typ, Cut(ts[0].cpuset, keep), flags, dropping);
    (if drops then {ts[0].obj} else {})
    + Dropped(ts[0].children, keep, flags, drops) + Dropped(ts[1..], keep, flags, dropping)
  }

  /** No CPU is kept. */
  ghost predicate AllCut(cpuset: set<nat>, keep: CpuTest) {
    forall i :: i in cpuset ==> !keep(i)
  }

  /** An ordinary object goes when it loses all its CPUs; a Misc or an I/O object goes with its parent,
      unless the flag for such objects says that they move up. */
  ghost predicate Goes(t: Tree, keep: CpuTest, flags: Flags, parentGoes: bool) {
    match t.obj.typ
    case Misc => parentGoes && !flags.adaptMisc
    case Bridge => parentGoes && !flags.adaptIo
    case PciDevice => parentGoes && !flags.adaptIo
    case OsDevice => parentGoes && !flags.adaptIo
    case _ => AllCut(t.cpuset, keep)
  }

  lemma CutAway(s: set<nat>, keep: CpuTest)
    ensures Cut(s, keep) == {} <==> AllCut(s, keep)
  {
    if Cut(s, keep) == {} {
      forall i | i in s
        ensures !keep(i)
      {
        assert i !in Cut(s, keep);
      }
    }
  }

  /** Inside what goes there is nothing left of any CPU set. */
  lemma DropsMeans(t: Tree, cpuset: set<nat>, keep: CpuTest, flags: Flags, dropping: bool)
    requires Placed(t) && t.cpuset <= cpuset && (dropping ==> AllCut(cpuset, keep))
    ensures
      var drops := Drops(t.obj.typ, Cut(t.cpuset, keep), flags, dropping);
      (drops <==> Goes(t, keep, flags, dropping)) && (drops ==> AllCut(t.cpuset, keep))
  {
    hide Cut, Placed;
    CutAway(t.cpuset, keep);
  }

  lemma {:induction false} DroppedInside(ts: seq<Tree>, keep: CpuTest, flags: Flags, dropping: bool)
    ensures Dropped(ts, keep, flags, dropping) <= AllNodes(ts)
    decreases ts
  {
    hide AllNodes, Cut, Drops;
    AllNodesFirst(ts);
    if ts != [] {
      DroppedInside(ts[0].children, keep, flags, Drops(ts[0].obj.typ, Cut(ts[0].cpuset, keep), flags, dropping));
      DroppedInside(ts[1..], keep, flags, dropping);
      TreeParts(ts[0]);
    }
  }

  /** The objects of a tree and of its siblings are not mixed up. */
  lemma DroppedParts(ts: seq<Tree>, keep: CpuTest, flags: Flags, dropping: bool)
    requires ts != [] && Apart(ts)
    ensures
      var t, all := ts[0], Dropped(ts, keep, flags, dropping);
      var drops := Drops(t.obj.typ, Cut(t.cpuset, keep), flags, dropping);
      && (t.obj in all <==> drops)
      && (forall n :: n in AllNodes(t.children) ==> (n in all <==> n in Dropped(t.children, keep, flags, drops)))
      && (forall n :: n in AllNodes(ts[1..]) ==> (n in all <==> n in Dropped(ts[1..], keep, flags, dropping)))
      && Apart(t.children) && Apart(ts[1..])
  {
    hide AllNodes, Cut, Drops, Apart, Single;
    var t, rest := ts[0], ts[1..];
    assert [t] + rest == ts;
    JoinedApart([t], rest);
    OneTree(t);
    TreeParts(t);
    ChildrenApart(t);
    DroppedInside(t.children, keep, flags, Drops(t.obj.typ, Cut(t.cpuset, keep), flags, dropping));
    DroppedInside(rest, keep, flags, dropping);
  }

  /** `c` hangs from `s`, or is one of the roots. */
  ghost predicate IsPlace(ts: seq<Tree>, s: Option<Tree>, c: Tree) {
    if s.None? then c in ts else s.value in Subtrees(ts) && c in s.value.children
  }

  /** Every object goes or stays by its own CPUs and flags, and by what happens to its parent. */
  lemma {:induction false} GoesExactly(ts: seq<Tree>, cpuset: set<nat>, complete: set<nat>, keep: CpuTest,
      flags: Flags, dropping: bool, s: Option<Tree>, c: Tree)
    requires Apart(ts) && AllPlaced(ts, cpuset, complete) && (dropping ==> AllCut(cpuset, keep)) && IsPlace(ts, s, c)
    ensures
      var gone := Dropped(ts, keep, flags, dropping);
      c.obj in gone <==> Goes(c, keep, flags, if s.None? then dropping else s.value.obj in gone)
    decreases ts
  {
    hide AllNodes, Cut, Drops, Apart, Dropped, Goes, AllCut;
    var t, rest := ts[0], ts[1..];
    var drops := Drops(t.obj.typ, Cut(t.cpuset, keep), flags, dropping);
    DroppedParts(ts, keep, flags, dropping);
    DropsMeans(t, cpuset, keep, flags, dropping);
    PlaceFirst(ts, s, c);
    if s == None && c == t {
    } else if s == Some(t) {
      PlaceNodes(t.children, None, c);
      GoesExactly(t.children, t.cpuset, t.complete, keep, flags, drops, None, c);
    } else if IsPlace(rest, s, c) {
      PlaceNodes(rest, s, c);
      GoesExactly(rest, cpuset, complete, keep, flags, dropping, s, c);
    } else {
      PlaceNodes(t.children, s, c);
      GoesExactly(t.children, t.cpuset, t.complete, keep, flags, drops, s, c);
    }
  }

  lemma PlaceFirst(ts: seq<Tree>, s: Option<Tree>, c: Tree)
    requires IsPlace(ts, s, c)
    ensures ts != []
    ensures
      var t := ts[0];
      if s.None? then c == t || IsPlace(ts[1..], s, c)
      else
        || (s.value == t && IsPlace(t.children, None, c)) || IsPlace(ts[1..], s, c) || IsPlace(t.children, s, c)
  {
  }

  lemma {:induction false} PlaceNodes(ts: seq<Tree>, s: Option<Tree>, c: Tree)
    requires IsPlace(ts, s, c)
    ensures c.obj in AllNodes(ts) && (s.Some? ==> s.value.obj in AllNodes(ts))
    decreases ts
  {
    hide AllNodes;
    PlaceFirst(ts, s, c);
    AllNodesFirst(ts);
    var t := ts[0];
    TreeParts(t);
    if s == None && c == t {
    } else if s == Some(t) {
      PlaceNodes(t.children, None, c);
    } else if IsPlace(ts[1..], s, c) {
      PlaceNodes(ts[1..], s, c);
    } else {
      PlaceNodes(t.children, s, c);
    }
  }

  // ---- The others ----

  /** The same trees with their sets cut. */
  ghost function CutTrees(ts: seq<Tree>, keep: CpuTest): seq<Tree>
    decreases ts
  {
    if ts == [] then []
    else
      var t := ts[0];
      var cpuset := set i | i in t.cpuset && keep(i);
      var complete := set i | i in t.complete && keep(i);
      [Tree(t.obj, cpuset, complete, CutTrees(t.children, keep))] + CutTrees(ts[1..], keep)
  }

  lemma {:induction false} CutJoined(p: seq<Tree>, q: seq<Tree>, keep: CpuTest)
    ensures CutTrees(p + q, keep) == CutTrees(p, keep) + CutTrees(q, keep)
    decreases |p|
  {
    if p == [] {
      assert p + q == q;
    } else {
      CutJoined(p[1..], q, keep);
      assert (p + q)[1..] == p[1..] + q;
    }
  }

  /** What is left is the tree with the objects that go taken out and the sets of the others cut. */
  lemma {:induction false} LeftIsPruned(ts: seq<Tree>, keep: CpuTest, flags: Flags, dropping: bool, gone: set<Node>)
    requires Apart(ts)
    requires forall n :: n in AllNodes(ts) ==> (n in gone <==> n in Dropped(ts, keep, flags, dropping))
    ensures AllLeft(ts, keep, flags, dropping) == CutTrees(Pruned(ts, gone), keep)
    decreases ts
  {
    hide AllNodes, Drops, Apart, Dropped, Single;
    if ts != [] {
      var t, rest := ts[0], ts[1..];
      var drops := Drops(t.obj.typ, Cut(t.cpuset, keep), flags, dropping);
      DroppedParts(ts, keep, flags, dropping);
      AllNodesFirst(ts);
      TreeParts(t);
      LeftIsPruned(t.children, keep, flags, drops, gone);
      LeftIsPruned(rest, keep, flags, dropping, gone);
      CutJoined(PrunedTree(t, gone), Pruned(rest, gone), keep);
      if !drops {
        assert PrunedTree(t, gone)[1..] == [];
      }
    }
  }

  lemma {:induction false} CutKeeps(ts: seq<Tree>, keep: CpuTest, a: Node, b: Node)
    ensures Preorder(CutTrees(ts, keep)) == Preorder(ts) && AllNodes(CutTrees(ts, keep)) == AllNodes(ts)
    ensures Above(CutTrees(ts, keep), a, b) <==> Above(ts, a, b)
    decreases ts
  {
    hide AllNodes;
    AllNodesFirst(ts);
    AllNodesFirst(CutTrees(ts, keep));
    if ts != [] {
      CutKeeps(ts[0].children, keep, a, b);
      CutKeeps(ts[1..], keep, a, b);
      var cut := CutTrees(ts, keep);
      assert cut[1..] == CutTrees(ts[1..], keep);
      TreeParts(ts[0]);
      TreeParts(cut[0]);
    }
  }

  /** The objects that do not go are in the order they were in, and above one another as before. */
  lemma OthersStay(ts: seq<Tree>, keep: CpuTest, flags: Flags, dropping: bool, a: Node, b: Node)
    requires Apart(ts)
    ensures
      var gone := Dropped(ts, keep, flags, dropping);
      var left := AllLeft(ts, keep, flags, dropping);
      && Preorder(left) == Without(Preorder(ts), gone) && AllNodes(left) == AllNodes(ts) - gone
      && (a !in gone && b !in gone ==> (Above(left, a, b) <==> Above(ts, a, b)))
  {
    hide AllNodes, Apart, Dropped, AllLeft, CutTrees, Pruned, Preorder, Without, Above;
    var gone := Dropped(ts, keep, flags, dropping);
    LeftIsPruned(ts, keep, flags, dropping, gone);
    CutKeeps(Pruned(ts, gone), keep, a, b);
    PreorderKept(ts, gone);
    PrunedNodes(ts, gone);
    if a !in gone && b !in gone {
      AncestryKept(ts, gone, a, b);
    }
  }

  // ---- Restricting twice ----

  function Both(a: CpuTest, b: CpuTest): CpuTest {
    (i: nat) => a(i) && b(i)
  }

  lemma CutTwice(s: set<nat>, a: CpuTest, b: CpuTest)
    ensures Cut(Cut(s, a), b) == Cut(s, Both(a, b))
  {
  }

  /** Restricting to one set and then to another is restricting to both, also for what moves up. */
  lemma {:induction false} LeftTwice(ts: seq<Tree>, a: CpuTest, b: CpuTest, flags: Flags, first: bool, second: bool)
    ensures AllLeft(AllLeft(ts, a, flags, first), b, flags, second) == AllLeft(ts, Both(a, b), flags, first || second)
    decreases ts
  {
    hide Cut, Both, IsIo;
    if ts != [] {
      var t := ts[0];
      var drops := Drops(t.obj.typ, Cut(t.cpuset, a), flags, first);
      CutTwice(t.cpuset, a, b);
      CutTwice(t.complete, a, b);
      CutNothing(b);
      LeftTwice(ts[1..], a, b, flags, first, second);
      LeftJoined(Left(t, a, flags, first), AllLeft(ts[1..], a, flags, first), b, flags, second);
      if drops {
        LeftTwice(t.children, a, b, flags, true, second);
      } else {
        var cut := Left(t, a, flags, first)[0];
        OneLeft(cut, b, flags, second);
        LeftTwice(t.children, a, b, flags, false, Drops(t.obj.typ, Cut(cut.cpuset, b), flags, second));
      }
    }
  }

  lemma CutNothing(keep: CpuTest)
    ensures Cut({}, keep) == {}
  {
  }

  /** Restricting a topology to one set and then to another does what restricting it to their
      intersection does, as long as that leaves the root some CPUs. */
  lemma RestrictionComposes(t: Tree, a: CpuTest, b: CpuTest, flags: Flags)
    requires Placed(t) && Cut(t.cpuset, Both(a, b)) != {}
    ensures
      var first := Restricted(t, a, flags, false);
      && |first| == 1 && Placed(first[0])
      && Restricted(first[0], b, flags, false) == Restricted(t, Both(a, b), flags, false)
  {
    CutTwice(t.cpuset, a, b);
    CutNothing(b);
    hide Cut, Both, AllLeft, Restricted, Placed;
    RestrictedIsLeft(t, a, flags, false);
    RestrictedIsLeft(t, Both(a, b), flags, false);
    OnePlaced(t, t.cpuset, t.complete);
    LeftPlaced([t], a, flags, false, t.cpuset, t.complete);
    var first := Left(t, a, flags, false);
    OneLeft(t, a, flags, false);
    OneLeft(t, Both(a, b), flags, false);
    OneLeft(first[0], b, flags, false);
    LeftTwice([t], a, b, flags, false, false);
    assert first == [first[0]];
    RestrictedIsLeft(first[0], b, flags, false);
  }

  lemma OnePlaced(t: Tree, cpuset: set<nat>, complete: set<nat>)
    requires Placed(t) && t.cpuset <= cpuset && t.complete <= complete
    ensures AllPlaced([t], cpuset, complete)
  {
    hide Placed;
    assert [t][1..] == [];
  }

  // ---- Whole topologies ----

  /** `hwloc_topology_restrict`, as far as objects go: an error when the root would lose all its
      CPUs, and otherwise a tree of the objects that are left. */
  method RestrictTopology(root: Node, keep: CpuTest, flags: Flags, ghost t: Tree, ghost all: set<Node>)
      returns (ok: bool)
    requires t.obj == root && Single(t) && Represents(t) && Nodes(t) <= all && Placed(t)
    modifies Nodes(t)`firstChild, Nodes(t)`cpuset, Nodes(t)`complete, AllNodes(t.children)`nextSibling
    ensures ok <==> Cut(t.cpuset, keep) != {}
    ensures !ok ==> Represents(t)
    ensures ok ==>
        var left := Left(t, keep, flags, false);
        |left| == 1 && left[0].obj == root && Represents(left[0])
  {
    hide Nodes, AllNodes, Single, Linked, Restricted, Placed, AllPlaced, Drops;
    RootParts(t);
    if Cut(root.cpuset, keep) == {} {
      return false;
    }
    RestrictedIsLeft(t, keep, flags, false);
    RootStays(t, keep, flags);
    var head := RestrictObject(root, keep, flags, false, t, all);
    FirstRepresented(head, Left(t, keep, flags, false), root.nextSibling);
    ok := true;
  }

  lemma RootStays(t: Tree, keep: CpuTest, flags: Flags)
    requires Cut(t.cpuset, keep) != {}
    ensures !Drops(t.obj.typ, Cut(t.cpuset, keep), flags, false)
  {
  }

  lemma RootParts(t: Tree)
    requires Represents(t)
    ensures t.obj.cpuset == t.cpuset
  {
  }

  lemma FirstRepresented(head: Node?, ts: seq<Tree>, end: Node?)
    requires Linked(head, ts, end) && ts != []
    ensures Represents(ts[0])
  {
  }
}
