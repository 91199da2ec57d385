/** The checks that the library makes on the children of an object (src/topology.c), and when the tree
    of a family passes them. */
module TreeChecks {
  import opened ObjTypes
  import opened Hierarchy

  /** Every child is inside its parent, only children included, and has no other place. */
  lemma ChildPlaced(root: Obj, s: set<Obj>, kids: Kids, p: Obj, i: nat)
    requires Family(root, s) && IsTree(root, s, kids) && p in kids && i < |kids[p]|
    ensures kids[p][i].key.cpus != {}
    ensures if p == root then root.Covers(kids[p][i].key.cpus) else kids[p][i].key.cpus <= p.key.cpus
    ensures forall q, k :: q in kids && 0 <= k < |kids[q]| && kids[q][k] == kids[p][i] ==> q == p && k == i
  {
    assert kids[p][i] in Elements(kids[p]);
    forall q, k | q in kids && 0 <= k < |kids[q]| && kids[q][k] == kids[p][i]
      ensures q == p && k == i
    {
      assert kids[q][k] in Elements(kids[q]);
      OneParent(root, s, p, q, kids[p][i]);
    }
  }

  /** Siblings are disjoint and in the order of their first CPU. */
  lemma SiblingsApart(root: Obj, s: set<Obj>, kids: Kids, p: Obj, i: nat, j: nat)
    requires Family(root, s) && IsTree(root, s, kids) && p in kids && i < j < |kids[p]|
    ensures kids[p][i] != kids[p][j] && kids[p][i].key.cpus !! kids[p][j].key.cpus
    ensures kids[p][i].key.cpus != {} && kids[p][j].key.cpus != {}
    ensures First(kids[p][i].key.cpus) < First(kids[p][j].key.cpus)
  {
    assert kids[p][i] in Elements(kids[p]) && kids[p][j] in Elements(kids[p]);
    ChildrenDisjoint(root, s, p, kids[p][i], kids[p][j]);
  }

  /** `hwloc__check_children`: each child must be inside what its earlier siblings leave of the set of
      the parent, and start where that starts; at the end nothing may be left. */
  ghost predicate Checked(remaining: set<nat>, q: seq<Obj>)
    decreases |q|
  {
    if q == [] then remaining == {} else
    && q[0].key.cpus <= remaining
    && (q[0].key.cpus != {} ==> First(q[0].key.cpus) == First(remaining))
    && Checked(remaining - q[0].key.cpus, q[1..])
  }

  ghost function AllCpus(q: seq<Obj>): set<nat> {
    if q == [] then {} else q[0].key.cpus + AllCpus(q[1..])
  }

  /** Ordered, disjoint and not empty. */
  ghost predicate InRow(q: seq<Obj>) {
    && (forall i :: 0 <= i < |q| ==> q[i].key.cpus != {})
    && (forall i, j :: 0 <= i < j < |q| ==>
          q[i].key.cpus !! q[j].key.cpus && First(q[i].key.cpus) < First(q[j].key.cpus))
  }

  lemma {:induction false} CpuOfChild(q: seq<Obj>, x: nat) returns (i: nat)
    requires x in AllCpus(q)
    ensures i < |q| && x in q[i].key.cpus
    decreases |q|
  {
    if x in q[0].key.cpus {
      i := 0;
    } else {
      i := CpuOfChild(q[1..], x);
      i := i + 1;
    }
  }

  /** The first CPU of all is that of the first child, and the other children are apart from it. */
  lemma FirstOfAll(q: seq<Obj>)
    requires InRow(q) && q != []
    ensures IsFirst(AllCpus(q), First(q[0].key.cpus)) && q[0].key.cpus !! AllCpus(q[1..])
  {
    forall x | x in AllCpus(q)
      ensures First(q[0].key.cpus) <= x && (x in AllCpus(q[1..]) ==> x !in q[0].key.cpus)
    {
      if x in AllCpus(q[1..]) {
        var i := CpuOfChild(q[1..], x);
        assert q[1..][i] == q[i + 1];
      }
    }
  }

  /** Children in a row pass exactly when they use up the set of the parent. */
  lemma {:induction false} RowChecked(remaining: set<nat>, q: seq<Obj>)
    requires InRow(q)
    ensures Checked(remaining, q) <==> remaining == AllCpus(q)
    decreases |q|
  {
    if q != [] {
      var c, rest := q[0].key.cpus, q[1..];
      FirstOfAll(q);
      RowChecked(remaining - c, rest);
      assert c <= remaining ==> (remaining - c == AllCpus(rest) <==> remaining == c + AllCpus(rest));
    }
  }

  /** The children of an object pass the checks exactly when together they have all its CPUs: all the
      rest is true of the tree of any family. */
  lemma ChecksExactly(root: Obj, s: set<Obj>, kids: Kids, p: Obj)
    requires Family(root, s) && IsTree(root, s, kids) && p in kids && p != root
    ensures Checked(p.key.cpus, kids[p]) <==> AllCpus(kids[p]) == p.key.cpus
  {
    hide Family, IsTree, Checked;
    var q := kids[p];
    forall i | 0 <= i < |q|
      ensures q[i].key.cpus != {}
    {
      ChildPlaced(root, s, kids, p, i);
    }
    forall i, j | 0 <= i < j < |q|
      ensures q[i].key.cpus !! q[j].key.cpus && First(q[i].key.cpus) < First(q[j].key.cpus)
    {
      SiblingsApart(root, s, kids, p, i, j);
    }
    RowChecked(p.key.cpus, q);
  }
}
