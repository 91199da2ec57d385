/** Inserting objects by CPU set (src/topology.c), on the linked objects themselves: the
    tree is walked and relinked through `firstChild` and `nextSibling`. */
module Insertion {
  import opened Collections
  import opened ObjTypes
  import opened Hierarchy

  // ---- How a child list is laid out in memory ----

  ghost predicate Linked(head: Obj?, q: seq<Obj>)
    reads q
  {
    && head == (if q == [] then null else q[0])
    && (forall j {:trigger q[j].nextSibling} :: 0 <= j < |q| ==>
        q[j].nextSibling == if j + 1 < |q| then q[j + 1] else null)
  }

  /** A list whose last `nextSibling` is still to be written. */
  ghost predicate Chained(head: Obj?, q: seq<Obj>)
    reads q
  {
    && (q != [] ==> head == q[0])
    && (forall j {:trigger q[j].nextSibling} :: 0 <= j < |q| - 1 ==> q[j].nextSibling == q[j + 1])
  }

  ghost predicate Links(kids: Kids)
    reads kids.Keys
  {
    && (forall p, c :: p in kids && c in kids[p] ==> c in kids)
    && (forall p :: p in kids ==> Linked(p.firstChild, kids[p]))
  }

  ghost predicate Hierarchical(root: Obj, s: set<Obj>, kids: Kids)
    reads kids.Keys
  {
    Family(root, s) && IsTree(root, s, kids) && Links(kids)
  }

  ghost function Lower(root: Obj, s: set<Obj>, cur: Obj): set<Obj> {
    set x | x in s && (cur == root || Below(x, cur))
  }

  lemma LowerShrinks(root: Obj, s: set<Obj>, cur: Obj, c: Obj)
    requires Family(root, s) && cur in s + {root} && c in Children(root, s, cur)
    ensures |Lower(root, s, c)| < |Lower(root, s, cur)|
  {
    CmpConverse(c.key, c.key);
    forall x | x in Lower(root, s, c)
      ensures x in Lower(root, s, cur)
    {
      if cur != root {
        BelowTransitive(x, c, cur);
      }
    }
    assert c in Lower(root, s, cur) && c !in Lower(root, s, c);
    SubsetIsSmaller(Lower(root, s, c), Lower(root, s, cur));
  }

  lemma ChildListsDistinct(root: Obj, s: set<Obj>, kids: Kids, p: Obj)
    requires Family(root, s) && IsTree(root, s, kids) && p in kids
    ensures forall i, j :: 0 <= i < j < |kids[p]| ==> kids[p][i] != kids[p][j]
    ensures forall q, c :: q in kids && q != p && c in kids[q] ==> c !in kids[p]
    ensures forall c :: c in kids[p] <==> c in Children(root, s, p)
    ensures p !in kids[p]
  {
    assert forall c :: c in kids[p] <==> c in Elements(kids[p]);
    forall q, c | q in kids && q != p && c in kids[q] && c in kids[p]
      ensures false
    {
      assert c in Elements(kids[q]) && c in Elements(kids[p]);
      OneParent(root, s, p, q, c);
    }
    if p in s {
      CmpConverse(p.key, p.key);
    }
  }

  datatype Verdict = Rejected | Inside(child: Obj) | Here

  /** Why an object cannot go below an object with children `cs`. */
  ghost predicate Clash(cs: seq<Obj>, o: Obj) {
    || (exists c :: c in cs && ObjCmp(o.key, c.key) in {Equal, Intersects})
    || (exists c, d :: c in cs && d in cs && c != d && Below(o, c) && Below(o, d))
  }

  lemma ClashRejects(root: Obj, s: set<Obj>, kids: Kids, p: Obj, o: Obj)
    requires Family(root, s) && IsTree(root, s, kids) && p in kids && Proper(root, o.key)
    requires Clash(kids[p], o)
    ensures !Admits(root, s, o)
  {
    ChildListsDistinct(root, s, kids, p);
    if c, d :| c in kids[p] && d in kids[p] && c != d && Below(o, c) && Below(o, d) {
      InsideOne(root, s, p, c, d, o);
    } else {
      var c :| c in kids[p] && ObjCmp(o.key, c.key) in {Equal, Intersects};
      assert c in s && !Compatible(o.key, c.key);
    }
  }

  lemma ScanFindsHost(root: Obj, s: set<Obj>, kids: Kids, p: Obj, o: Obj)
    requires Family(root, s) && IsTree(root, s, kids) && p in kids && (p == root || Below(o, p))
    requires forall c :: c in kids[p] ==> ObjCmp(o.key, c.key) in {Different, Contains}
    ensures Host(root, s, p, o)
  {
    ChildListsDistinct(root, s, kids, p);
  }

  /** The first loop: compare `o` with the children of `cur`. */
  method Scan(cur: Obj, o: Obj, ghost cs: seq<Obj>) returns (v: Verdict)
    requires Linked(cur.firstChild, cs)
    requires forall i, j :: 0 <= i < j < |cs| ==> cs[i] != cs[j]
    ensures v == Rejected ==> Clash(cs, o)
    ensures v == Here ==> forall c :: c in cs ==> ObjCmp(o.key, c.key) in {Different, Contains}
    ensures v.Inside? ==> v.child in cs && Below(o, v.child)
  {
    hide ObjCmp;
    var container: Obj? := null;
    var child := cur.firstChild;
    ghost var i := 0;
    while child != null
      invariant 0 <= i <= |cs| && child == if i < |cs| then cs[i] else null
      invariant container == null ==>
        forall j :: 0 <= j < i ==> ObjCmp(o.key, cs[j].key) in {Different, Contains}
      invariant container != null ==> container in cs[..i] && Below(o, container)
      decreases |cs| - i
    {
      assert child in cs && cs[..i + 1] == cs[..i] + [child];
      match ObjCmp(o.key, child.key) {
        case Equal => return Rejected;
        case Included =>
          if container != null {
            return Rejected;
          }
          container := child;
        case Intersects => return Rejected;
        case Contains =>
        case Different =>
      }
      assert cs[i].nextSibling == if i + 1 < |cs| then cs[i + 1] else null;
      child := child.nextSibling;
      i := i + 1;
    }
    v := if container != null then Inside(container) else Here;
  }

  /** `hwloc___insert_object_by_cpuset`: exactly the objects that fit in the root and neither
      cross nor equal a present object are inserted. */
  method InsertBelow(root: Obj, cur: Obj, o: Obj, ghost s: set<Obj>, ghost kids: Kids)
    returns (ok: bool, ghost kids': Kids)
    requires Hierarchical(root, s, kids)
    requires o !in kids && Proper(root, o.key)
    requires cur in kids && (cur != root ==> !cur.cofinite && Below(o, cur) && root.Covers(o.key.cpus))
    requires forall x :: x in s ==> !x.cofinite
    modifies kids.Keys, o
    ensures ok <==> Admits(root, s, o)
    ensures !ok ==> kids' == kids && (forall x :: x in kids.Keys + {o} ==> unchanged(x))
    ensures Hierarchical(root, if ok then s + {o} else s, kids')
    ensures ok ==> kids'.Keys == s + {root, o}
    decreases |Lower(root, s, cur)|
  {
    hide IsParent, Host, Clash, IsTree, Children;
    kids' := kids;
    KeysOfTree(root, s, kids);
    if !cur.Covers(o.key.cpus) {
      return false, kids;
    }
    ChildListsDistinct(root, s, kids, cur);
    var v := Scan(cur, o, kids[cur]);
    match v {
      case Rejected =>
        ClashRejects(root, s, kids, cur, o);
        ok := false;
      case Inside(c) =>
        LowerShrinks(root, s, cur, c);
        ok, kids' := InsertBelow(root, c, o, s, kids);
      case Here =>
        ScanFindsHost(root, s, kids, cur, o);
        HostAdmits(root, s, cur, o);
        FamilyGrows'(root, s, cur, o);
        HostFresh(root, s, kids, cur, o);
        ghost var kept, taken := LinkBelow(cur, o, kids);
        TreeAfterInsert(root, s, kids, cur, o, kept, taken);
        ok, kids' := true, kids[cur := kept][o := taken];
    }
  }

  /** How far the second loop has got: `kept` and `taken` are the children of `cur` and of `o`
      made from the first `i` of the old children `cs`. */
  ghost predicate Split(cs: seq<Obj>, i: int, o: Obj, put: bool, kept: seq<Obj>, taken: seq<Obj>) {
    && 0 <= i <= |cs|
    && (forall x :: x in kept ==> (x == o && put) || (x in cs[..i] && ObjCmp(o.key, x.key) == Different))
    && (forall x :: x in cs[..i] && ObjCmp(o.key, x.key) == Different ==> x in kept)
    && (put ==> o in kept)
    && (forall x :: x in taken ==> x in cs[..i] && ObjCmp(o.key, x.key) == Contains)
    && (forall x :: x in cs[..i] && ObjCmp(o.key, x.key) == Contains ==> x in taken)
    && Ordered(kept) && Ordered(taken)
    && (!put ==> forall x :: x in kept ==> FirstCpu(x) < FirstCpu(o))
    && (put ==> forall j :: i <= j < |cs| ==> FirstCpu(o) < FirstCpu(cs[j]))
  }

  lemma SplitApart(cs: seq<Obj>, i: int, o: Obj, put: bool, kept: seq<Obj>, taken: seq<Obj>)
    requires Split(cs, i, o, put, kept, taken) && Ordered(cs) && o !in cs
    ensures 0 <= i <= |cs| && Ordered(kept) && Ordered(taken)
    ensures forall x :: x in kept ==> x !in taken && (x == o || x in cs)
    ensures forall x :: x in taken ==> x !in kept && x in cs
    ensures forall j :: i <= j < |cs| ==> cs[j] !in kept && cs[j] !in taken
    ensures !put ==> o !in kept
  {
    forall j | i <= j < |cs|
      ensures cs[j] !in cs[..i]
    {
    }
  }

  lemma OrderedAppend(q: seq<Obj>, x: Obj)
    requires Ordered(q) && forall y :: y in q ==> FirstCpu(y) < FirstCpu(x)
    ensures Ordered(q + [x])
  {
    forall i, j | 0 <= i < j < |q| + 1
      ensures FirstCpu((q + [x])[i]) < FirstCpu((q + [x])[j])
    {
      if j == |q| {
        assert (q + [x])[i] in q;
      }
    }
  }

  lemma DifferentFirsts(a: Obj, b: Obj)
    requires a.key.cpus != {} && b.key.cpus != {} && ObjCmp(a.key, b.key) == Different
    ensures FirstCpu(a) != FirstCpu(b)
  {
    assert First(a.key.cpus) !in a.key.cpus * b.key.cpus;
  }

  lemma SplitStart(cs: seq<Obj>, o: Obj)
    ensures Split(cs, 0, o, false, [], [])
  {
  }

  lemma SplitEnd(cs: seq<Obj>, o: Obj, kept: seq<Obj>, taken: seq<Obj>)
    requires Split(cs, |cs|, o, true, kept, taken) && Ordered(cs) && o !in cs
    ensures Ordered(kept) && Ordered(taken)
    ensures Elements(kept) == (set c | c in cs && ObjCmp(o.key, c.key) == Different) + {o}
    ensures Elements(taken) == set c | c in cs && ObjCmp(o.key, c.key) == Contains
    ensures forall x :: x in kept ==> x !in taken
  {
    assert cs[..|cs|] == cs;
  }

  lemma SplitPut(cs: seq<Obj>, i: int, o: Obj, kept: seq<Obj>, taken: seq<Obj>)
    requires Split(cs, i, o, false, kept, taken)
    requires Ordered(cs) && (i == |cs| || FirstCpu(o) < FirstCpu(cs[i]))
    ensures Split(cs, i, o, true, kept + [o], taken)
  {
    OrderedAppend(kept, o);
  }

  lemma SplitKeep(cs: seq<Obj>, i: int, o: Obj, put: bool, kept: seq<Obj>, taken: seq<Obj>)
    requires Split(cs, i, o, put, kept, taken) && i < |cs| && Ordered(cs)
    requires ObjCmp(o.key, cs[i].key) == Different
    requires put || FirstCpu(cs[i]) < FirstCpu(o)
    ensures Split(cs, i + 1, o, put, kept + [cs[i]], taken)
  {
    assert cs[..i + 1] == cs[..i] + [cs[i]];
    assert forall x :: x in cs[..i] ==> FirstCpu(x) < FirstCpu(cs[i]);
    OrderedAppend(kept, cs[i]);
  }

  lemma SplitTake(cs: seq<Obj>, i: int, o: Obj, put: bool, kept: seq<Obj>, taken: seq<Obj>)
    requires Split(cs, i, o, put, kept, taken) && i < |cs| && Ordered(cs)
    requires ObjCmp(o.key, cs[i].key) == Contains
    ensures Split(cs, i + 1, o, put, kept, taken + [cs[i]])
  {
    assert cs[..i + 1] == cs[..i] + [cs[i]];
    assert forall x :: x in cs[..i] ==> FirstCpu(x) < FirstCpu(cs[i]);
    OrderedAppend(taken, cs[i]);
  }

  /** `*slot = x`, where the slot is the owner's first child or the tail's next sibling. */
  method Write(owner: Obj, tail: Obj?, x: Obj?, ghost q: seq<Obj>)
    requires Chained(owner.firstChild, q) && Ordered(q)
    requires tail == if q == [] then null else q[|q| - 1]
    modifies owner`firstChild, (if tail == null then {} else {tail})`nextSibling
    ensures x != null ==> Chained(owner.firstChild, q + [x])
    ensures x == null ==> Linked(owner.firstChild, q)
    ensures tail == null ==> owner.firstChild == x
    ensures tail != null ==> owner.firstChild == old(owner.firstChild) && tail.nextSibling == x
  {
    if tail == null {
      owner.firstChild := x;
    } else {
      tail.nextSibling := x;
    }
  }

  /** The memory while the two lists are being built: `kept` hangs from `cur` and `taken` from
      `o`, both with an open end, and the old children from index `i` on are still linked. */
  ghost predicate Relinking(cur: Obj, o: Obj, cs: seq<Obj>, i: int, curTail: Obj?, objTail: Obj?,
                            kept: seq<Obj>, taken: seq<Obj>)
    reads cs, cur, o, kept, taken
  {
    && 0 <= i <= |cs|
    && (forall j {:trigger cs[j].nextSibling} :: i <= j < |cs| ==>
        cs[j].nextSibling == if j + 1 < |cs| then cs[j + 1] else null)
    && curTail == (if kept == [] then null else kept[|kept| - 1])
    && objTail == (if taken == [] then null else taken[|taken| - 1])
    && Chained(cur.firstChild, kept)
    && Chained(o.firstChild, taken)
  }

  lemma NextChild(cur: Obj, o: Obj, cs: seq<Obj>, i: int, curTail: Obj?, objTail: Obj?,
                  kept: seq<Obj>, taken: seq<Obj>)
    requires Relinking(cur, o, cs, i, curTail, objTail, kept, taken) && i < |cs|
    ensures 0 <= i && cs[i] in cs
    ensures cs[i].nextSibling == if i + 1 < |cs| then cs[i + 1] else null
  {
  }

  ghost predicate Fresh(cur: Obj, o: Obj, cs: seq<Obj>) {
    && Ordered(cs) && cur !in cs && o !in cs && cur != o && o.key.cpus != {}
    && (forall c :: c in cs ==> c.key.cpus != {} && ObjCmp(o.key, c.key) in {Different, Contains})
  }

  lemma HostFresh(root: Obj, s: set<Obj>, kids: Kids, cur: Obj, o: Obj)
    requires Family(root, s) && IsTree(root, s, kids) && cur in kids && o !in kids
    requires Proper(root, o.key) && Host(root, s, cur, o)
    ensures Fresh(cur, o, kids[cur])
  {
    ChildListsDistinct(root, s, kids, cur);
  }

  /** Append `x`, the object itself or the next child, to the children of `cur`. */
  method Keep(cur: Obj, o: Obj, x: Obj, ghost cs: seq<Obj>, ghost i: int, ghost put: bool,
              curTail: Obj?, objTail: Obj?, ghost kept: seq<Obj>, ghost taken: seq<Obj>)
    requires Fresh(cur, o, cs)
    requires Relinking(cur, o, cs, i, curTail, objTail, kept, taken) && Split(cs, i, o, put, kept, taken)
    requires (x == o && !put) || (i < |cs| && x == cs[i])
    modifies cs`nextSibling, cur`firstChild, o`nextSibling
    ensures Relinking(cur, o, cs, if x == o then i else i + 1, x, objTail, kept + [x], taken)
    ensures x == o && i < |cs| ==> cs[i].nextSibling == old(cs[i].nextSibling)
  {
    SplitApart(cs, i, o, put, kept, taken);
    hide Split, Ordered, ObjCmp, First, FirstCpu;
    assert kept != [] ==> curTail in kept;
    Write(cur, curTail, x, kept);
  }

  /** Append the next child to the children of `o`. */
  method Take(cur: Obj, o: Obj, x: Obj, ghost cs: seq<Obj>, ghost i: int, ghost put: bool,
              curTail: Obj?, objTail: Obj?, ghost kept: seq<Obj>, ghost taken: seq<Obj>)
    requires Fresh(cur, o, cs)
    requires Relinking(cur, o, cs, i, curTail, objTail, kept, taken) && Split(cs, i, o, put, kept, taken)
    requires i < |cs| && x == cs[i]
    modifies cs`nextSibling, o`firstChild
    ensures Relinking(cur, o, cs, i + 1, curTail, x, kept, taken + [x])
  {
    SplitApart(cs, i, o, put, kept, taken);
    hide Split, Ordered, ObjCmp, First, FirstCpu;
    assert taken != [] ==> objTail in taken;
    Write(o, objTail, x, taken);
    forall j | 0 <= j < |kept| - 1
      ensures kept[j].nextSibling == old(kept[j].nextSibling)
    {
      assert kept[j] in kept;
    }
  }

  /** Close both lists. */
  method Close(cur: Obj, o: Obj, ghost cs: seq<Obj>,
               curTail: Obj?, objTail: Obj?, ghost kept: seq<Obj>, ghost taken: seq<Obj>)
    requires Fresh(cur, o, cs)
    requires Relinking(cur, o, cs, |cs|, curTail, objTail, kept, taken) && Split(cs, |cs|, o, true, kept, taken)
    modifies cs`nextSibling, cur`firstChild, o
    ensures Linked(cur.firstChild, kept) && Linked(o.firstChild, taken)
  {
    SplitApart(cs, |cs|, o, true, kept, taken);
    hide Split, Ordered, ObjCmp, First, FirstCpu;
    assert taken != [] ==> objTail in taken;
    assert kept != [] ==> curTail in kept;
    Write(o, objTail, null, taken);
    Write(cur, curTail, null, kept);
  }

  /** One turn of the second loop. */
  method Place(cur: Obj, o: Obj, child: Obj, ghost cs: seq<Obj>, ghost i: int, put: bool,
               curTail: Obj?, objTail: Obj?, ghost kept: seq<Obj>, ghost taken: seq<Obj>)
    returns (put': bool, curTail': Obj?, objTail': Obj?, ghost kept': seq<Obj>, ghost taken': seq<Obj>)
    requires Fresh(cur, o, cs)
    requires Relinking(cur, o, cs, i, curTail, objTail, kept, taken) && Split(cs, i, o, put, kept, taken)
    requires i < |cs| && child == cs[i]
    modifies cs`nextSibling, cur`firstChild, o
    ensures Relinking(cur, o, cs, i + 1, curTail', objTail', kept', taken')
    ensures Split(cs, i + 1, o, put', kept', taken')
  {
    NextChild(cur, o, cs, i, curTail, objTail, kept, taken);
    hide Split, Chained, Ordered, Relinking;
    put', curTail', objTail', kept', taken' := put, curTail, objTail, kept, taken;
    if ObjCmp(o.key, child.key) == Different {
      DifferentFirsts(o, child);
      if !put && First(o.key.cpus) < First(child.key.cpus) {
        Keep(cur, o, o, cs, i, put, curTail, objTail, kept, taken);
        SplitPut(cs, i, o, kept, taken);
        curTail', put', kept' := o, true, kept + [o];
      }
      Keep(cur, o, child, cs, i, put', curTail', objTail, kept', taken);
      SplitKeep(cs, i, o, put', kept', taken);
      curTail', kept' := child, kept' + [child];
    } else {
      Take(cur, o, child, cs, i, put, curTail, objTail, kept, taken);
      SplitTake(cs, i, o, put, kept, taken);
      objTail', taken' := child, taken + [child];
    }
  }

  /** The second loop: the children of `cur` that `o` contains move below `o`, and `o` takes
      its place among the others. */
  method SplitChildren(cur: Obj, o: Obj, ghost cs: seq<Obj>) returns (ghost kept: seq<Obj>, ghost taken: seq<Obj>)
    requires Linked(cur.firstChild, cs) && Fresh(cur, o, cs)
    modifies cs`nextSibling, cur`firstChild, o
    ensures Ordered(kept) && Ordered(taken)
    ensures Elements(kept) == (set c | c in cs && ObjCmp(o.key, c.key) == Different) + {o}
    ensures Elements(taken) == set c | c in cs && ObjCmp(o.key, c.key) == Contains
    ensures Linked(cur.firstChild, kept) && Linked(o.firstChild, taken)
  {
    var put := false;
    // the slots to write next: the owner's first child, or the tail's next sibling
    var curTail: Obj?, objTail: Obj? := null, null;
    ghost var i := 0;
    kept, taken := [], [];
    SplitStart(cs, o);
    var child := cur.firstChild;
    assert child == if 0 < |cs| then cs[0] else null;
    assert Relinking(cur, o, cs, i, curTail, objTail, kept, taken);
    hide Split, Chained, Ordered, Linked, Relinking;
    while child != null
      invariant 0 <= i <= |cs| && child == if i < |cs| then cs[i] else null
      invariant Relinking(cur, o, cs, i, curTail, objTail, kept, taken)
      invariant Split(cs, i, o, put, kept, taken)
      decreases |cs| - i
    {
      NextChild(cur, o, cs, i, curTail, objTail, kept, taken);
      var nextChild := child.nextSibling;
      put, curTail, objTail, kept, taken := Place(cur, o, child, cs, i, put, curTail, objTail, kept, taken);
      child := nextChild;
      i := i + 1;
    }
    if !put {
      Keep(cur, o, o, cs, i, put, curTail, objTail, kept, taken);
      SplitPut(cs, i, o, kept, taken);
      curTail, put, kept := o, true, kept + [o];
    }
    Close(cur, o, cs, curTail, objTail, kept, taken);
    SplitEnd(cs, o, kept, taken);
  }

  /** The rest of the tree stays as it is linked. */
  method LinkBelow(cur: Obj, o: Obj, ghost kids: Kids) returns (ghost kept: seq<Obj>, ghost taken: seq<Obj>)
    requires Links(kids) && o !in kids && cur in kids && Fresh(cur, o, kids[cur])
    requires forall p, c :: p in kids && p != cur && c in kids[p] ==> c !in kids[cur]
    modifies kids[cur], cur`firstChild, o
    ensures Ordered(kept) && Ordered(taken)
    ensures Elements(kept) == (set c | c in kids[cur] && ObjCmp(o.key, c.key) == Different) + {o}
    ensures Elements(taken) == set c | c in kids[cur] && ObjCmp(o.key, c.key) == Contains
    ensures Links(kids[cur := kept][o := taken])
  {
    ghost var cs := kids[cur];
    assert Linked(cur.firstChild, cs);
    kept, taken := SplitChildren(cur, o, cs);
    hide ObjCmp, Ordered;
    assert forall c :: c in kept ==> c in Elements(kept);
    assert forall c :: c in taken ==> c in Elements(taken);
    forall p | p in kids && p != cur
      ensures Linked(p.firstChild, kids[p])
    {
      assert old(Linked(p.firstChild, kids[p]));
      forall j | 0 <= j < |kids[p]|
        ensures kids[p][j].nextSibling == old(kids[p][j].nextSibling)
      {
        assert kids[p][j] in kids[p] && kids[p][j] !in cs;
      }
    }
  }
}
