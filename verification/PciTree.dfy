/** Building the PCI tree (src/topology-libpci.c) on doubly linked sibling lists. */
module PciTree {
  import opened Collections
  import opened PciFamily

  // ---- How the lists are laid out in memory ----

  ghost predicate Linked(p: Pci, q: seq<Pci>)
    reads p`firstChild, p`lastChild, q`nextSibling, q`prevSibling
  {
    && p.firstChild == (if q == [] then null else q[0])
    && p.lastChild == (if q == [] then null else q[|q| - 1])
    && (forall j {:trigger q[j].nextSibling} :: 0 <= j < |q| ==>
        q[j].nextSibling == if j + 1 < |q| then q[j + 1] else null)
    && (forall j {:trigger q[j].prevSibling} :: 0 <= j < |q| ==> q[j].prevSibling == if j > 0 then q[j - 1] else null)
  }

  ghost predicate Distinct(q: seq<Pci>) {
    forall i, j :: 0 <= i < j < |q| ==> q[i] != q[j]
  }

  /** Nothing is in two lists, or twice in one. */
  ghost predicate Separate(kids: Kids) {
    && (forall p :: p in kids ==> Distinct(kids[p]))
    && (forall p, r, c :: p in kids && r in kids && p != r && c in kids[p] ==> c !in kids[r])
  }

  ghost predicate Forest(kids: Kids)
    reads kids.Keys`firstChild, kids.Keys`lastChild, kids.Keys`nextSibling, kids.Keys`prevSibling
  {
    && (forall p, c :: p in kids && c in kids[p] ==> c in kids)
    && Separate(kids)
    && (forall p :: p in kids ==> Linked(p, kids[p]))
  }

  ghost predicate Detached(kids: Kids, o: Pci) {
    forall p :: p in kids ==> o !in kids[p]
  }

  // ---- Linking one object in or out ----

  ghost function Spliced(q: seq<Pci>, i: nat, o: Pci): seq<Pci>
    requires i <= |q|
  {
    q[..i] + [o] + q[i..]
  }

  lemma InsertedAt(q: seq<Pci>, i: nat, o: Pci)
    requires i <= |q|
    ensures
      var q' := Spliced(q, i, o);
      && |q'| == |q| + 1 && q'[i] == o
      && (forall j :: 0 <= j < i ==> q'[j] == q[j])
      && (forall j {:trigger q'[j]} :: i < j <= |q| ==> q'[j] == q[j - 1])
  {
  }

  /** `hwloc_pci_add_child_before`. */
  method AddChildBefore(root: Pci, child: Pci?, o: Pci, ghost q: seq<Pci>, ghost i: nat)
    requires Linked(root, q) && Distinct(q) && o !in q
    requires i <= |q| && child == if i < |q| then q[i] else null
    modifies root`firstChild, root`lastChild, q`nextSibling, q`prevSibling, o`nextSibling, o`prevSibling
    ensures Linked(root, Spliced(q, i, o))
  {
    hide Spliced;
    assert child != null ==> child in q;
    assert i > 0 ==> q[i - 1] in q;
    assert q != [] ==> q[|q| - 1] in q;
    InsertedAt(q, i, o);
    if child != null {
      o.prevSibling := child.prevSibling;
      child.prevSibling := o;
    } else {
      o.prevSibling := root.lastChild;
      root.lastChild := o;
    }
    assert o.prevSibling == if i > 0 then q[i - 1] else null;
    if o.prevSibling != null {
      o.prevSibling.nextSibling := o;
    } else {
      root.firstChild := o;
    }
    o.nextSibling := child;
    ghost var q' := Spliced(q, i, o);
    forall j | 0 <= j < |q'|
      ensures q'[j].nextSibling == if j + 1 < |q'| then q'[j + 1] else null
      ensures q'[j].prevSibling == if j > 0 then q'[j - 1] else null
    {
      assert q'[j] == if j < i then q[j] else if j == i then o else q[j - 1];
      assert j + 1 < |q'| ==> q'[j + 1] == if j + 1 < i then q[j + 1] else if j + 1 == i then o else q[j];
      assert j > 0 ==> q'[j - 1] == if j - 1 < i then q[j - 1] else if j - 1 == i then o else q[j - 2];
    }
  }

  lemma RemovedAt(q: seq<Pci>, i: nat)
    requires i < |q|
    ensures
      var q' := q[..i] + q[i + 1..];
      |q'| == |q| - 1 && forall j :: 0 <= j < |q'| ==> q'[j] == if j < i then q[j] else q[j + 1]
  {
  }

  /** `hwloc_pci_remove_child`. */
  method RemoveChild(root: Pci, child: Pci, ghost q: seq<Pci>, ghost i: nat)
    requires Linked(root, q) && Distinct(q) && i < |q| && child == q[i]
    modifies root`firstChild, root`lastChild, q`nextSibling, q`prevSibling
    ensures Linked(root, q[..i] + q[i + 1..])
    ensures child.prevSibling == null && child.nextSibling == null
  {
    RemovedAt(q, i);
    assert child.nextSibling == if i + 1 < |q| then q[i + 1] else null;
    assert child.prevSibling == if i > 0 then q[i - 1] else null;
    assert i + 1 < |q| ==> q[i + 1] in q;
    assert i > 0 ==> q[i - 1] in q;
    if child.nextSibling != null {
      child.nextSibling.prevSibling := child.prevSibling;
    } else {
      root.lastChild := child.prevSibling;
    }
    if child.prevSibling != null {
      child.prevSibling.nextSibling := child.nextSibling;
    } else {
      root.firstChild := child.nextSibling;
    }
    child.prevSibling := null;
    child.nextSibling := null;
    ghost var q' := q[..i] + q[i + 1..];
    forall j | 0 <= j < |q'|
      ensures q'[j].nextSibling == if j + 1 < |q'| then q'[j + 1] else null
      ensures q'[j].prevSibling == if j > 0 then q'[j - 1] else null
    {
      assert q'[j] == if j < i then q[j] else q[j + 1];
    }
  }

  lemma ForestAt(kids: Kids, p: Pci)
    requires Forest(kids) && p in kids
    ensures Linked(p, kids[p]) && Distinct(kids[p])
    ensures forall c :: c in kids[p] ==> c in kids
    ensures forall r, c :: r in kids && r != p && c in kids[r] ==> c !in kids[p]
  {
  }

  /** A list has been rewritten, and the others are linked as they should be. */
  lemma ForestChanged(kids: Kids, p: Pci, q: seq<Pci>, o: Pci)
    requires (forall r, c :: r in kids && c in kids[r] ==> c in kids) && Separate(kids) && p in kids
    requires Linked(p, q) && Distinct(q)
    requires forall c :: c in q ==> c in kids && (c == o || c in kids[p])
    requires forall r :: r in kids && r != p ==> o !in kids[r] && Linked(r, kids[r])
    ensures Forest(kids[p := q])
  {
    hide Linked, Distinct;
  }

  lemma InsertedStays(q: seq<Pci>, i: nat, o: Pci)
    requires i <= |q| && Distinct(q) && o !in q
    ensures var q' := Spliced(q, i, o); Distinct(q') && forall c :: c in q' <==> c in q || c == o
  {
    SplicedHolds(q, i, o);
    hide Spliced;
    SplicedDistinct(q, i, o);
  }

  lemma SplicedDistinct(q: seq<Pci>, i: nat, o: Pci)
    requires i <= |q| && Distinct(q) && o !in q
    ensures Distinct(Spliced(q, i, o))
  {
    InsertedAt(q, i, o);
  }

  lemma SplicedHolds(q: seq<Pci>, i: nat, o: Pci)
    requires i <= |q|
    ensures forall c :: c in Spliced(q, i, o) <==> c in q || c == o
  {
    forall c
      ensures c in Spliced(q, i, o) <==> c in q || c == o
    {
      assert q == q[..i] + q[i..];
    }
  }

  /** Put a detached object before a child of `root`, or last. */
  method PutBefore(root: Pci, child: Pci?, o: Pci, ghost kids: Kids, ghost i: nat) returns (ghost kids': Kids)
    requires Forest(kids) && root in kids && o in kids && Detached(kids, o)
    requires i <= |kids[root]| && child == if i < |kids[root]| then kids[root][i] else null
    modifies root`firstChild, root`lastChild, kids[root]`nextSibling, kids[root]`prevSibling, o`nextSibling,
        o`prevSibling
    ensures kids' == kids[root := Spliced(kids[root], i, o)] && Forest(kids')
  {
    ghost var q := kids[root];
    ForestAt(kids, root);
    ghost var q' := Spliced(q, i, o);
    InsertedStays(q, i, o);
    AddChildBefore(root, child, o, q, i);
    forall r | r in kids && r != root
      ensures Linked(r, kids[r])
    {
      assert old(Linked(r, kids[r]));
      forall j | 0 <= j < |kids[r]|
        ensures kids[r][j].nextSibling == old(kids[r][j].nextSibling)
            && kids[r][j].prevSibling == old(kids[r][j].prevSibling)
      {
        assert kids[r][j] in kids[r];
      }
    }
    ForestChanged(kids, root, q', o);
    kids' := kids[root := q'];
  }

  lemma RemovedStays(q: seq<Pci>, i: nat)
    requires i < |q| && Distinct(q)
    ensures var q' := q[..i] + q[i + 1..]; Distinct(q') && forall c :: c in q' ==> c in q && c != q[i]
  {
    RemovedAt(q, i);
  }

  method TakeOut(root: Pci, child: Pci, ghost kids: Kids, ghost i: nat) returns (ghost kids': Kids)
    requires Forest(kids) && root in kids && i < |kids[root]| && child == kids[root][i]
    modifies root`firstChild, root`lastChild, kids[root]`nextSibling, kids[root]`prevSibling
    ensures kids' == kids[root := kids[root][..i] + kids[root][i + 1..]]
    ensures Forest(kids') && Detached(kids', child)
  {
    ghost var q := kids[root];
    ForestAt(kids, root);
    RemoveChild(root, child, q, i);
    RemovedStays(q, i);
    hide Distinct;
    kids' := kids[root := q[..i] + q[i + 1..]];
    forall r | r in kids && r != root
      ensures Linked(r, kids[r])
    {
      assert old(Linked(r, kids[r]));
      forall j | 0 <= j < |kids[r]|
        ensures kids[r][j].nextSibling == old(kids[r][j].nextSibling)
            && kids[r][j].prevSibling == old(kids[r][j].prevSibling)
      {
        assert kids[r][j] in kids[r];
      }
    }
    ForestChanged(kids, root, kids'[root], child);
  }

  // ---- Moving siblings below a new bridge ----

  ghost function Behind(q: seq<Pci>, o: Pci): (r: seq<Pci>) {
    if q == [] then [] else
    var c := q[|q| - 1];
    Behind(q[..|q| - 1], o) + if Inside(c.id, o.id) then [c] else []
  }

  ghost function Beside(q: seq<Pci>, o: Pci): (r: seq<Pci>) {
    if q == [] then [] else
    var c := q[|q| - 1];
    Beside(q[..|q| - 1], o) + if Inside(c.id, o.id) then [] else [c]
  }

  lemma OneMore(q: seq<Pci>, k: nat, o: Pci)
    requires k < |q|
    ensures Behind(q[..k + 1], o) == Behind(q[..k], o) + if Inside(q[k].id, o.id) then [q[k]] else []
    ensures Beside(q[..k + 1], o) == Beside(q[..k], o) + if Inside(q[k].id, o.id) then [] else [q[k]]
  {
    assert q[..k + 1][..k] == q[..k];
  }

  lemma {:induction false} BehindMembers(q: seq<Pci>, o: Pci)
    ensures forall c :: c in Behind(q, o) ==> c in q && Inside(c.id, o.id)
    ensures forall c :: c in q && Inside(c.id, o.id) ==> c in Behind(q, o)
    ensures forall c :: c in Beside(q, o) ==> c in q && !Inside(c.id, o.id)
    ensures forall c :: c in q && !Inside(c.id, o.id) ==> c in Beside(q, o)
  {
    hide Inside;
    if q != [] {
      BehindMembers(q[..|q| - 1], o);
      assert q == q[..|q| - 1] + [q[|q| - 1]];
    }
  }

  /** `o` would come after all of `q`, and outside them. */
  ghost predicate After(q: seq<Pci>, o: Pci) {
    forall c :: c in q ==> Comparable(o.id, c.id) && Compare(o.id, c.id) == Higher
  }

  /** What follows `o` in its list: objects behind it or after it, each after those before it. */
  ghost predicate Followers(post: seq<Pci>, o: Pci) {
    && (forall c :: c in post ==> Comparable(c.id, o.id) && Compare(c.id, o.id) in {Higher, Included})
    && (forall k :: 0 <= k < |post| ==> After(post[..k], post[k]))
  }

  ghost function Spread(pre: seq<Pci>, o: Pci, post: seq<Pci>, k: nat): seq<Pci>
    requires k <= |post|
  {
    pre + [o] + Beside(post[..k], o) + post[k..]
  }

  lemma Cut(front: seq<Pci>, tail: seq<Pci>)
    requires tail != []
    ensures
      var list := front + tail;
      && list[|front|] == tail[0] && (|tail| > 1 ==> list[|front| + 1] == tail[1])
      && list[..|front|] + list[|front| + 1..] == front + tail[1..]
      && (front + [tail[0]]) + tail[1..] == list
  {
  }

  lemma SpreadNext(pre: seq<Pci>, o: Pci, post: seq<Pci>, k: nat)
    requires k < |post|
    ensures
      var list := Spread(pre, o, post, k);
      var i := |pre| + 1 + |Beside(post[..k], o)|;
      && i < |list| && list[i] == post[k]
      && (if i + 1 < |list| then k + 1 < |post| && list[i + 1] == post[k + 1] else k + 1 == |post|)
      && Spread(pre, o, post, k + 1) == if Inside(post[k].id, o.id) then list[..i] + list[i + 1..] else list
  {
    hide Inside, Beside;
    OneMore(post, k, o);
    var front, tail := pre + [o] + Beside(post[..k], o), post[k..];
    assert tail[0] == post[k] && tail[1..] == post[k + 1..];
    Cut(front, tail);
    Regroup(pre + [o], Beside(post[..k], o), [post[k]]);
  }

  // ---- Adding an object ----

  ghost predicate Adding(root: Pci, s: set<Pci>, kids: Kids, cur: Pci, o: Pci) {
    && Family(root, s + {o}) && o !in s + {root} && IsTree(root, s, kids)
    && o in kids && kids[o] == []
    && cur in s + {root} && (cur == root || Inside(o.id, cur.id))
  }

  lemma {:induction false} SortedParts(q: seq<Pci>, o: Pci)
    requires Sorted(q)
    ensures Sorted(Behind(q, o)) && Sorted(Beside(q, o))
  {
    hide Inside;
    if q != [] {
      var front := q[..|q| - 1];
      SortedParts(front, o);
      BehindMembers(front, o);
      forall c | c in front
        ensures Precedes(c.id, q[|q| - 1].id)
      {
        var i :| 0 <= i < |front| && front[i] == c;
        assert Precedes(q[i].id, q[|q| - 1].id);
      }
      assert Sorted(Behind(front, o)) && Sorted(Beside(front, o));
      assert forall c :: c in Behind(front, o) ==> c in front;
      assert forall c :: c in Beside(front, o) ==> c in front;
      SortedAppend(Behind(front, o), q[|q| - 1]);
      SortedAppend(Beside(front, o), q[|q| - 1]);
    }
  }

  lemma SortedAppend(q: seq<Pci>, x: Pci)
    requires Sorted(q) && forall c :: c in q ==> Precedes(c.id, x.id)
    ensures Sorted(q + [x]) && Sorted(q + [])
  {
    assert q + [] == q;
    forall i, j | 0 <= i < j < |q| + 1
      ensures Precedes((q + [x])[i].id, (q + [x])[j].id)
    {
      if j == |q| {
        assert (q + [x])[i] in q;
      }
    }
  }

  lemma SortedJoin(a: seq<Pci>, o: Pci, c: seq<Pci>)
    requires Sorted(a) && Sorted(c)
    requires forall x :: x in a ==> Precedes(x.id, o.id)
    requires forall x :: x in c ==> Precedes(o.id, x.id)
    ensures Sorted(a + [o] + c)
  {
    var q := a + [o] + c;
    forall i, j | 0 <= i < j < |q|
      ensures Precedes(q[i].id, q[j].id)
    {
      assert i < |a| ==> q[i] in a;
      assert j > |a| ==> q[j] in c;
      if i < |a| && j > |a| {
        PrecedesTransitive(q[i].id, o.id, q[j].id);
      }
    }
  }

  /** What the walk over the children of `cur` tells when it stops before child `i`. */
  ghost predicate StopsAt(q: seq<Pci>, o: Pci, i: nat) {
    && i <= |q| && After(q[..i], o)
    && (i < |q| ==> Comparable(o.id, q[i].id) && Compare(o.id, q[i].id) in {Lower, Superset})
  }

  lemma ChildOfTree(root: Pci, s: set<Pci>, kids: Kids, cur: Pci, o: Pci, c: Pci)
    requires Adding(root, s, kids, cur, o) && c in kids[cur]
    ensures c in Children(root, s, cur) && c in s && c != o
    ensures Sound(o.id) && Sound(c.id) && Compatible(o.id, c.id)
  {
    assert c in Elements(kids[cur]);
  }

  /** From there on all children come after `o`, in or out of its range. */
  lemma StoppedRight(root: Pci, s: set<Pci>, kids: Kids, cur: Pci, o: Pci, i: nat, j: nat)
    requires Adding(root, s, kids, cur, o) && StopsAt(kids[cur], o, i) && i <= j < |kids[cur]|
    ensures
      var c := kids[cur][j];
      && Precedes(o.id, c.id) && !Inside(o.id, c.id)
      && Comparable(c.id, o.id) && Compare(c.id, o.id) == if Inside(c.id, o.id) then Included else Higher
  {
    var q := kids[cur];
    ChildOfTree(root, s, kids, cur, o, q[i]);
    ChildOfTree(root, s, kids, cur, o, q[j]);
    CompareMeans(o.id, q[i].id);
    CompareMeans(o.id, q[j].id);
    CompareMeans(q[j].id, o.id);
    if i < j {
      PrecedesTransitive(o.id, q[i].id, q[j].id);
    }
  }

  lemma StoppedLeft(root: Pci, s: set<Pci>, kids: Kids, cur: Pci, o: Pci, i: nat, j: nat)
    requires Adding(root, s, kids, cur, o) && StopsAt(kids[cur], o, i) && j < i
    ensures
      var c := kids[cur][j];
      Precedes(c.id, o.id) && !Inside(o.id, c.id) && !Inside(c.id, o.id)
  {
    var q := kids[cur];
    assert q[..i][j] == q[j];
    ChildOfTree(root, s, kids, cur, o, q[j]);
    CompareMeans(o.id, q[j].id);
  }

  lemma SiblingAfter(root: Pci, s: set<Pci>, kids: Kids, cur: Pci, o: Pci, j: nat, k: nat)
    requires Adding(root, s, kids, cur, o) && j < k < |kids[cur]|
    ensures
      var c, d := kids[cur][j], kids[cur][k];
      Comparable(d.id, c.id) && Compare(d.id, c.id) == Higher
  {
    var c, d := kids[cur][j], kids[cur][k];
    ChildOfTree(root, s, kids, cur, o, c);
    ChildOfTree(root, s, kids, cur, o, d);
    assert Precedes(c.id, d.id) && !SameId(c.id, d.id);
    Smaller(root, s, o);
    SiblingsApart(root, s, cur, c, d);
    SiblingsApart(root, s, cur, d, c);
    CompareMeans(d.id, c.id);
  }

  lemma StoppedFollowers(root: Pci, s: set<Pci>, kids: Kids, cur: Pci, o: Pci, i: nat)
    requires Adding(root, s, kids, cur, o) && StopsAt(kids[cur], o, i)
    ensures Followers(kids[cur][i..], o)
  {
    hide Family, Compare, Comparable, Inside;
    var q, post := kids[cur], kids[cur][i..];
    forall c | c in post
      ensures Comparable(c.id, o.id) && Compare(c.id, o.id) in {Higher, Included}
    {
      var j :| 0 <= j < |post| && post[j] == c;
      StoppedRight(root, s, kids, cur, o, i, i + j);
    }
    forall k | 0 <= k < |post|
      ensures After(post[..k], post[k])
    {
      forall c | c in post[..k]
        ensures Comparable(post[k].id, c.id) && Compare(post[k].id, c.id) == Higher
      {
        var j :| 0 <= j < k && post[j] == c;
        SiblingAfter(root, s, kids, cur, o, i + j, i + k);
      }
    }
  }

  /** The object belongs where the walk stops, and moving the followers below it completes the tree. */
  lemma StoppedTree(root: Pci, s: set<Pci>, kids: Kids, cur: Pci, o: Pci, i: nat)
    requires Adding(root, s, kids, cur, o) && StopsAt(kids[cur], o, i)
    ensures
      var q := kids[cur];
      IsTree(root, s + {o}, kids[cur := q[..i] + [o] + Beside(q[i..], o)][o := Behind(q[i..], o)])
  {
    hide Inside, Precedes, Compare, Comparable;
    var q := kids[cur];
    var pre, post := q[..i], q[i..];
    assert q == pre + post;
    assert Sorted(pre) && Sorted(post);
    StoppedMembers(root, s, kids, cur, o, i);
    BehindMembers(post, o);
    SortedParts(post, o);
    assert forall c :: c in Beside(post, o) ==> c in post;
    SortedJoin(pre, o, Beside(post, o));
    TreeAfterAdding(root, s, kids, cur, o, pre + [o] + Beside(post, o), Behind(post, o));
  }

  lemma StoppedMembers(root: Pci, s: set<Pci>, kids: Kids, cur: Pci, o: Pci, i: nat)
    requires Adding(root, s, kids, cur, o) && StopsAt(kids[cur], o, i)
    ensures Host(root, s, cur, o)
    ensures forall c :: c in kids[cur][..i] ==> Precedes(c.id, o.id) && !Inside(c.id, o.id)
    ensures forall c :: c in kids[cur][i..] ==> Precedes(o.id, c.id)
  {
    hide Precedes, Inside, Compare;
    var q := kids[cur];
    assert forall c :: c in Children(root, s, cur) <==> c in Elements(q);
    forall j | 0 <= j < |q|
      ensures !Inside(o.id, q[j].id)
      ensures j < i ==> Precedes(q[j].id, o.id) && !Inside(q[j].id, o.id)
      ensures j >= i ==> Precedes(o.id, q[j].id)
    {
      if j < i {
        StoppedLeft(root, s, kids, cur, o, i, j);
      } else {
        StoppedRight(root, s, kids, cur, o, i, j);
      }
    }
  }

  ghost function Depth(s: set<Pci>, root: Pci, cur: Pci): nat {
    |set x | x in s && (cur == root || Inside(x.id, cur.id))|
  }

  lemma DepthShrinks(root: Pci, s: set<Pci>, kids: Kids, cur: Pci, o: Pci, c: Pci)
    requires Adding(root, s, kids, cur, o) && c in kids[cur] && Inside(o.id, c.id)
    ensures Depth(s, root, c) < Depth(s, root, cur)
    ensures Adding(root, s, kids, c, o)
  {
    ChildOfTree(root, s, kids, cur, o, c);
    var low := set x | x in s && (c == root || Inside(x.id, c.id));
    var high := set x | x in s && (cur == root || Inside(x.id, cur.id));
    forall x | x in low
      ensures x in high
    {
      if cur != root {
        InsideTransitive(x.id, c.id, cur.id);
      }
    }
    NotInsideItself(root, s + {o}, c);
    assert c in high && c !in low;
    SubsetIsSmaller(low, high);
  }

  lemma NextOf(kids: Kids, p: Pci, i: nat)
    requires Forest(kids) && p in kids && i < |kids[p]|
    ensures kids[p][i] in kids && kids[p][i] in kids[p]
    ensures kids[p][i].nextSibling == if i + 1 < |kids[p]| then kids[p][i + 1] else null
  {
    assert Linked(p, kids[p]);
  }

  lemma SpreadStart(pre: seq<Pci>, o: Pci, post: seq<Pci>)
    ensures Spread(pre, o, post, 0) == pre + [o] + post && Behind(post[..0], o) == []
  {
  }

  lemma SpreadEnd(pre: seq<Pci>, o: Pci, post: seq<Pci>)
    ensures Spread(pre, o, post, |post|) == pre + [o] + Beside(post, o)
    ensures Behind(post[..|post|], o) == Behind(post, o)
  {
    assert post[..|post|] == post && post[|post|..] == [];
  }

  lemma FollowerAfter(post: seq<Pci>, o: Pci, k: nat)
    requires Followers(post, o) && k < |post|
    ensures Comparable(post[k].id, o.id) && Compare(post[k].id, o.id) in {Higher, Included}
    ensures Compare(post[k].id, o.id) == Included <==> Inside(post[k].id, o.id)
    ensures After(Behind(post[..k], o), post[k])
  {
    assert post[k] in post;
    BehindAfter(post[..k], o, post[k]);
  }

  lemma BehindAfter(q: seq<Pci>, o: Pci, x: Pci)
    requires After(q, x)
    ensures After(Behind(q, o), x)
  {
    hide Compare, Comparable, Inside;
    BehindMembers(q, o);
  }

  lemma FirstOf(kids: Kids, p: Pci)
    requires Forest(kids) && p in kids
    ensures p.firstChild == if kids[p] == [] then null else kids[p][0]
  {
    assert Linked(p, kids[p]);
  }

  lemma Meets(root: Pci, s: set<Pci>, kids: Kids, cur: Pci, o: Pci, i: nat)
    requires cur in kids && (After(kids[cur], o) || Adding(root, s, kids, cur, o)) && i < |kids[cur]|
    ensures Comparable(o.id, kids[cur][i].id)
    ensures Compare(o.id, kids[cur][i].id) == Included ==> Inside(o.id, kids[cur][i].id)
  {
    if Adding(root, s, kids, cur, o) {
      ChildOfTree(root, s, kids, cur, o, kids[cur][i]);
    }
  }

  lemma AfterOneMore(q: seq<Pci>, o: Pci, i: nat)
    requires i < |q| && After(q[..i], o) && Comparable(o.id, q[i].id)
    ensures Compare(o.id, q[i].id) == Higher ==> After(q[..i + 1], o)
    ensures Compare(o.id, q[i].id) != Higher ==> !After(q, o)
    ensures Compare(o.id, q[i].id) in {Lower, Superset} ==> StopsAt(q, o, i)
  {
    hide Compare, Comparable;
    assert q[..i + 1] == q[..i] + [q[i]];
    assert q[i] in q;
  }

  lemma NothingAfter(o: Pci)
    ensures After([], o)
  {
  }

  lemma AddingFacts(root: Pci, s: set<Pci>, kids: Kids, cur: Pci, o: Pci)
    requires Adding(root, s, kids, cur, o)
    ensures o in kids && kids[o] == [] && cur in s + {root}
  {
  }

  /** Nothing stopped the walk. */
  lemma AppendedTree(root: Pci, s: set<Pci>, kids: Kids, cur: Pci, o: Pci)
    requires cur in kids && After(kids[cur], o)
    ensures Spliced(kids[cur], |kids[cur]|, o) == kids[cur] + [o]
    ensures Adding(root, s, kids, cur, o) ==> IsTree(root, s + {o}, kids[cur := kids[cur] + [o]])
  {
    hide IsTree, Compare, Comparable;
    var q := kids[cur];
    assert q[..|q|] == q && q[|q|..] == [];
    if Adding(root, s, kids, cur, o) {
      StoppedTree(root, s, kids, cur, o, |q|);
      assert q + [o] + [] == q + [o];
      assert kids[cur := q + [o]][o := []] == kids[cur := q + [o]];
    }
  }

  /** One sibling moves below the new bridge, after those that did before. */
  method MoveBelow(cur: Pci, current: Pci, o: Pci, ghost kids: Kids, ghost i: nat) returns (ghost kids': Kids)
    requires Forest(kids) && cur in kids && o in kids && cur != o
    requires i < |kids[cur]| && current == kids[cur][i] && current != o && After(kids[o], current)
    modifies kids.Keys
    ensures Forest(kids')
    ensures kids' == kids[cur := kids[cur][..i] + kids[cur][i + 1..]][o := kids[o] + [current]]
    decreases 0, 1
  {
    hide Forest, After;
    Closed(kids, cur);
    ghost var between := TakeOut(cur, current, kids, i);
    assert between[o] == kids[o];
    kids' := AddObject(o, current, between, cur, {});
  }

  lemma Closed(kids: Kids, p: Pci)
    requires Forest(kids) && p in kids
    ensures forall c :: c in kids[p] ==> c in kids
  {
    hide Linked;
  }

  /** The first `k` followers have been dealt with. */
  ghost predicate Moving(kids: Kids, kids': Kids, cur: Pci, o: Pci, pre: seq<Pci>, post: seq<Pci>, k: nat) {
    && k <= |post| && cur in kids && o in kids && cur != o
    && kids' == kids[cur := Spread(pre, o, post, k)][o := Behind(post[..k], o)]
  }

  ghost function PlaceOf(pre: seq<Pci>, o: Pci, post: seq<Pci>, k: nat): nat
    requires k <= |post|
  {
    |pre| + 1 + |Beside(post[..k], o)|
  }

  lemma MovingNext(kids: Kids, kids': Kids, cur: Pci, o: Pci, pre: seq<Pci>, post: seq<Pci>, k: nat)
    requires Moving(kids, kids', cur, o, pre, post, k) && k < |post| && Followers(post, o)
    ensures cur in kids' && o in kids' && After(kids'[o], post[k])
    ensures
      var q, i := kids'[cur], PlaceOf(pre, o, post, k);
      && i < |q| && q[i] == post[k]
      && (if i + 1 < |q| then k + 1 < |post| && q[i + 1] == post[k + 1] else k + 1 == |post|)
      && (if Inside(post[k].id, o.id)
          then Moving(kids, kids'[cur := q[..i] + q[i + 1..]][o := kids'[o] + [post[k]]], cur, o, pre, post, k + 1)
          else Moving(kids, kids', cur, o, pre, post, k + 1))
  {
    hide Inside, Spread, Behind, Beside, Followers, After;
    SpreadNext(pre, o, post, k);
    OneMore(post, k, o);
    FollowerAfter(post, o, k);
    if !Inside(post[k].id, o.id) {
      assert Behind(post[..k], o) + [] == Behind(post[..k], o);
    }
  }

  lemma MovingEnds(kids: Kids, kids': Kids, cur: Pci, o: Pci, pre: seq<Pci>, post: seq<Pci>)
    requires cur in kids && o in kids && cur != o
    ensures kids[cur] == pre + [o] + post && kids[o] == [] ==> Moving(kids, kids, cur, o, pre, post, 0)
    ensures Moving(kids, kids', cur, o, pre, post, |post|) ==>
        kids' == kids[cur := pre + [o] + Beside(post, o)][o := Behind(post, o)]
  {
    hide Spread, Behind, Beside;
    SpreadStart(pre, o, post);
    SpreadEnd(pre, o, post);
  }

  /** One turn of the loop below. */
  method PassSibling(cur: Pci, current: Pci, o: Pci, ghost kids: Kids, ghost now: Kids,
                     ghost pre: seq<Pci>, ghost post: seq<Pci>, ghost k: nat)
    returns (next: Pci?, ghost kids': Kids)
    requires Forest(now) && Moving(kids, now, cur, o, pre, post, k)
    requires Followers(post, o) && o !in post && k < |post| && current == post[k]
    modifies now.Keys
    ensures next == if k + 1 < |post| then post[k + 1] else null
    ensures Forest(kids') && kids'.Keys == now.Keys && Moving(kids, kids', cur, o, pre, post, k + 1)
    decreases 0, 2
  {
    hide Behind, Beside, Spread, PlaceOf, Forest, Compare, Inside, Followers, After, Comparable;
    kids' := now;
    ghost var i := PlaceOf(pre, o, post, k);
    MovingNext(kids, now, cur, o, pre, post, k);
    NextOf(now, cur, i);
    FollowerAfter(post, o, k);
    next := current.nextSibling;
    var comp := Compare(current.id, o.id);
    assert comp != Superset;
    if comp != Higher {
      assert comp == Included;
      kids' := MoveBelow(cur, current, o, now, i);
    }
  }

  /** `hwloc_pci_try_insert_siblings_below_new_bridge`. */
  method TryInsertSiblings(cur: Pci, o: Pci, ghost kids: Kids, ghost pre: seq<Pci>, ghost post: seq<Pci>)
    returns (ghost kids': Kids)
    requires Forest(kids) && cur in kids && o in kids && cur != o
    requires kids[cur] == pre + [o] + post && kids[o] == []
    requires Followers(post, o) && o !in post
    modifies kids.Keys
    ensures Forest(kids')
    ensures kids' == kids[cur := pre + [o] + Beside(post, o)][o := Behind(post, o)]
    decreases 0, 3
  {
    kids' := kids;
    NextOf(kids, cur, |pre|);
    var next := o.nextSibling;
    ghost var k := 0;
    MovingEnds(kids, kids, cur, o, pre, post);
    hide Moving, Behind, Beside, Forest, Followers;
    while next != null
      invariant 0 <= k <= |post| && next == if k < |post| then post[k] else null
      invariant Moving(kids, kids', cur, o, pre, post, k) && Forest(kids') && kids'.Keys == kids.Keys
      decreases |post| - k
    {
      next, kids' := PassSibling(cur, next, o, kids, kids', pre, post, k);
      k := k + 1;
    }
    MovingEnds(kids, kids', cur, o, pre, post);
  }

  /** The walk stops before a child: the object goes there, and takes the siblings behind it. */
  method AddHere(cur: Pci, current: Pci, o: Pci, ghost kids: Kids, ghost root: Pci, ghost s: set<Pci>, ghost i: nat)
    returns (ghost kids': Kids)
    requires Forest(kids) && cur in kids && o in kids && cur != o && Detached(kids, o)
    requires Adding(root, s, kids, cur, o) && StopsAt(kids[cur], o, i) && i < |kids[cur]| && current == kids[cur][i]
    modifies kids.Keys
    ensures Forest(kids') && kids'.Keys == kids.Keys
    ensures IsTree(root, s + {o}, kids')
    ensures forall p :: p in kids && p !in s + {root, o} ==> kids'[p] == kids[p]
    decreases 0, 4
  {
    hide Adding, StopsAt, Inside, Forest, Compare, Comparable, IsTree, Behind, Beside, Followers;
    ghost var q := kids[cur];
    Closed(kids, cur);
    AddingFacts(root, s, kids, cur, o);
    StoppedFollowers(root, s, kids, cur, o, i);
    StoppedTree(root, s, kids, cur, o, i);
    ghost var pre, post := q[..i], q[i..];
    ghost var between := PutBefore(cur, current, o, kids, i);
    assert between[cur] == pre + [o] + post;
    kids' := TryInsertSiblings(cur, o, between, pre, post);
    assert kids' == kids[cur := pre + [o] + Beside(post, o)][o := Behind(post, o)];
  }

  /** `hwloc_pci_add_object`. Either `o` comes after all children of `cur`, and becomes the last one
      with all that is below it; or it is a new object, and the tree becomes that of one more object. */
  method AddObject(cur: Pci, o: Pci, ghost kids: Kids, ghost root: Pci, ghost s: set<Pci>)
    returns (ghost kids': Kids)
    requires Forest(kids) && cur in kids && o in kids && cur != o && Detached(kids, o)
    requires After(kids[cur], o) || Adding(root, s, kids, cur, o)
    modifies kids.Keys
    ensures Forest(kids') && kids'.Keys == kids.Keys
    ensures After(kids[cur], o) ==> kids' == kids[cur := kids[cur] + [o]]
    ensures Adding(root, s, kids, cur, o) ==> IsTree(root, s + {o}, kids')
    ensures Adding(root, s, kids, cur, o) ==> forall p :: p in kids && p !in s + {root, o} ==> kids'[p] == kids[p]
    decreases if After(kids[cur], o) then 0 else 1 + Depth(s, root, cur), 0
  {
    hide Adding, Inside, Forest, Compare, Comparable, IsTree, Depth, StopsAt, After, Detached;
    ghost var q := kids[cur];
    FirstOf(kids, cur);
    Closed(kids, cur);
    var current := cur.firstChild;
    ghost var i := 0;
    assert After(q[..0], o) by { NothingAfter(o); }
    while current != null
      invariant 0 <= i <= |q| && current == if i < |q| then q[i] else null
      invariant After(q[..i], o) && Forest(kids)
      decreases |q| - i
    {
      NextOf(kids, cur, i);
      Meets(root, s, kids, cur, o, i);
      AfterOneMore(q, o, i);
      match Compare(o.id, current.id) {
        case Higher =>
          current := current.nextSibling;
          i := i + 1;
        case Included =>
          DepthShrinks(root, s, kids, cur, o, current);
          kids' := AddObject(current, o, kids, root, s);
          return;
        case _ =>
          kids' := AddHere(cur, current, o, kids, root, s, i);
          return;
      }
    }
    assert q[..|q|] == q;
    AppendedTree(root, s, kids, cur, o);
    if Adding(root, s, kids, cur, o) {
      AddingFacts(root, s, kids, cur, o);
    }
    kids' := PutBefore(cur, null, o, kids, |q|);
  }
}
