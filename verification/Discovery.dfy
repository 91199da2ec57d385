/** The topology being discovered (src/topology.c): objects arrive one by one, in any order. */
module Discovery {
  import opened ObjTypes
  import opened Hierarchy
  import opened Insertion

  class Topology {
    const root: Obj
    ghost var objects: set<Obj>
    ghost var kids: Kids

    ghost predicate Valid()
      reads this, kids.Keys
    {
      && Hierarchical(root, objects, kids)
      && (forall x :: x in objects ==> !x.cofinite)
    }

    /** The root starts with every CPU. */
    constructor (rootKind: Kind)
      ensures Valid() && objects == {} && kids == map[root := []] && fresh(root)
      ensures root.cofinite && root.key == Key({}, rootKind)
    {
      var r := new Obj(Key({}, rootKind), true, 0);
      root := r;
      objects, kids := {}, map[r := []];
    }

    /** Starting over with the same root, which loses its children. */
    constructor Over(root: Obj)
      modifies root`firstChild
      ensures Valid() && objects == {} && kids == map[root := []] && this.root == root
    {
      this.root := root;
      objects, kids := {}, map[root := []];
      new;
      root.firstChild := null;
    }

    /** `hwloc__insert_object_by_cpuset`. */
    method Insert(o: Obj) returns (ok: bool)
      requires Valid() && o !in kids && Proper(root, o.key) && !o.cofinite
      modifies this, kids.Keys, o
      ensures Valid()
      ensures ok <==> old(Admits(root, objects, o))
      ensures objects == if ok then old(objects) + {o} else old(objects)
      ensures kids.Keys == if ok then old(kids).Keys + {o} else old(kids).Keys
      ensures !ok ==> kids == old(kids) && forall x :: x in kids.Keys + {o} ==> unchanged(x)
    {
      hide IsTree, Links, Family, Admits, Proper;
      KeysOfTree(root, objects, kids);
      ghost var kids';
      ok, kids' := InsertBelow(root, root, o, objects, kids);
      kids, objects := kids', if ok then objects + {o} else objects;
    }
  }

  /** The objects left in the topology when `arrivals` come in this order. */
  ghost function Accepted(root: Obj, s: set<Obj>, arrivals: seq<Obj>): set<Obj>
    decreases arrivals
  {
    if arrivals == [] then s
    else
      var o := arrivals[0];
      Accepted(root, if Admits(root, s, o) then s + {o} else s, arrivals[1..])
  }

  ghost predicate NoDuplicates(q: seq<Obj>) {
    forall i, j :: 0 <= i < j < |q| ==> q[i] != q[j]
  }

  /** Over any run the objects form a family, and every arrival that was turned away crosses or
      equals one that is there, or does not fit in the root. */
  lemma {:induction false} RunKeepsFamily(root: Obj, s: set<Obj>, arrivals: seq<Obj>)
    requires Family(root, s) && NoDuplicates(arrivals)
    requires forall o :: o in arrivals ==> o !in s + {root} && Proper(root, o.key)
    ensures Family(root, Accepted(root, s, arrivals))
    ensures s <= Accepted(root, s, arrivals) <= s + Elements(arrivals)
    ensures forall o :: o in arrivals && o !in Accepted(root, s, arrivals) ==>
      !Admits(root, Accepted(root, s, arrivals), o)
    decreases arrivals
  {
    if arrivals != [] {
      var o := arrivals[0];
      var s' := if Admits(root, s, o) then s + {o} else s;
      assert arrivals == [o] + arrivals[1..];
      if Admits(root, s, o) {
        FamilyGrows(root, s, o);
      }
      RunKeepsFamily(root, s', arrivals[1..]);
      var end := Accepted(root, s', arrivals[1..]);
      assert Elements(arrivals) == {o} + Elements(arrivals[1..]);
      if o !in end {
        assert !Admits(root, s, o) && s <= end;
      }
    }
  }

  /** A family arrives complete whatever the order. */
  lemma {:induction false} FamilyAccepted(root: Obj, s: set<Obj>, arrivals: seq<Obj>)
    requires Family(root, s + Elements(arrivals)) && NoDuplicates(arrivals)
    requires forall o :: o in arrivals ==> o !in s
    ensures Accepted(root, s, arrivals) == s + Elements(arrivals)
    decreases arrivals
  {
    if arrivals != [] {
      var o := arrivals[0];
      assert arrivals == [o] + arrivals[1..];
      assert s + Elements(arrivals) == (s + {o}) + Elements(arrivals[1..]);
      assert o in s + Elements(arrivals);
      FamilyAccepted(root, s + {o}, arrivals[1..]);
    }
  }

  /** Objects that may be inserted one after the other. */
  ghost predicate Arriving(root: Obj, present: set<Obj>, arrivals: seq<Obj>) {
    && NoDuplicates(arrivals)
    && (forall o :: o in arrivals ==> o !in present && Proper(root, o.key) && !o.cofinite)
  }

  lemma NextArrival(root: Obj, s: set<Obj>, present: set<Obj>, arrivals: seq<Obj>)
    requires Arriving(root, present, arrivals) && arrivals != []
    ensures
      var o, rest := arrivals[0], arrivals[1..];
      && o !in present && Proper(root, o.key) && !o.cofinite && Arriving(root, present + {o}, rest)
      && Accepted(root, s, arrivals) == Accepted(root, if Admits(root, s, o) then s + {o} else s, rest)
  {
    hide Proper, Admits;
    assert arrivals == [arrivals[0]] + arrivals[1..];
  }

  lemma StillArriving(root: Obj, present: set<Obj>, fewer: set<Obj>, arrivals: seq<Obj>)
    requires Arriving(root, present, arrivals) && fewer <= present
    ensures Arriving(root, fewer, arrivals)
  {
  }

  /** A whole run: the objects that were accepted form the tree, and the others are not in it. */
  method InsertAll(t: Topology, arrivals: seq<Obj>)
    requires t.Valid() && Arriving(t.root, t.kids.Keys, arrivals)
    modifies t, t.kids.Keys, arrivals
    ensures t.Valid() && t.objects == Accepted(t.root, old(t.objects), arrivals)
    ensures IsTree(t.root, t.objects, t.kids)
    ensures t.kids.Keys <= old(t.kids.Keys) + Elements(arrivals)
  {
    hide IsTree, Family, Links, Arriving, Accepted, Admits, Proper;
    var n := 0;
    assert arrivals[0..] == arrivals;
    while n < |arrivals|
      invariant n <= |arrivals| && t.Valid() && Arriving(t.root, t.kids.Keys, arrivals[n..])
      invariant t.kids.Keys <= old(t.kids.Keys) + Elements(arrivals)
      invariant Accepted(t.root, t.objects, arrivals[n..]) == Accepted(t.root, old(t.objects), arrivals)
    {
      var o := arrivals[n];
      assert arrivals[n..][0] == o && arrivals[n..][1..] == arrivals[n + 1..];
      NextArrival(t.root, t.objects, t.kids.Keys, arrivals[n..]);
      ghost var present := t.kids.Keys + {o};
      var ok := t.Insert(o);
      StillArriving(t.root, present, t.kids.Keys, arrivals[n + 1..]);
      n := n + 1;
    }
    assert arrivals[n..] == [];
    NoMore(t.root, t.objects);
  }

  lemma NoMore(root: Obj, s: set<Obj>)
    ensures Accepted(root, s, []) == s
  {
  }

  lemma WholeFamily(root: Obj, b: seq<Obj>)
    requires NoDuplicates(b) && Family(root, Elements(b))
    ensures Accepted(root, {}, b) == Elements(b)
  {
    assert {} + Elements(b) == Elements(b);
    FamilyAccepted(root, {}, b);
  }

  /** Order independence: two runs over the same pairwise compatible objects, in any two orders,
      end with the same children in the same order below every object. */
  lemma OrderIndependence(root: Obj, a: seq<Obj>, b: seq<Obj>, ka: Kids, kb: Kids)
    requires NoDuplicates(a) && NoDuplicates(b) && Elements(a) == Elements(b)
    requires Family(root, Elements(a))
    requires IsTree(root, Accepted(root, {}, a), ka) && IsTree(root, Accepted(root, {}, b), kb)
    ensures ka == kb && ka.Keys == Elements(a) + {root}
  {
    WholeFamily(root, a);
    WholeFamily(root, b);
    TreeUnique(root, Elements(a), ka, kb);
  }

  /** Two real runs over the same objects, the second one in another order and on links that the
      first one left behind, build the same tree: the one of the whole family. */
  method InsertTwice(root: Obj, a: seq<Obj>, b: seq<Obj>) returns (ghost ka: Kids, ghost kb: Kids)
    requires Arriving(root, {root}, a) && NoDuplicates(b) && Elements(a) == Elements(b)
    requires Family(root, Elements(a))
    modifies root, a
    ensures ka == kb && IsTree(root, Elements(a), kb) && Links(kb)
  {
    hide IsTree, Family, Links, NoDuplicates;
    Reordered(root, a, b);
    var t := new Topology.Over(root);
    InsertAll(t, a);
    ka := t.kids;
    var u := new Topology.Over(root);
    InsertAll(u, b);
    kb := u.kids;
    OrderIndependence(root, a, b, ka, kb);
    WholeFamily(root, b);
  }

  lemma Reordered(root: Obj, a: seq<Obj>, b: seq<Obj>)
    requires Arriving(root, {root}, a) && NoDuplicates(b) && Elements(a) == Elements(b)
    ensures Arriving(root, {root}, b) && forall o :: o in b ==> o in a
  {
    forall o | o in b
      ensures o in a
    {
      assert o in Elements(b);
    }
  }
}
