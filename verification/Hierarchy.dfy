/** The tree that a family of objects determines: each object hangs below the smallest
    object strictly above it, and siblings are ordered by their first CPU. */
module Hierarchy {
  import opened Collections
  import opened ObjTypes

  datatype Key = Key(cpus: set<nat>, kind: Kind)

  datatype Relation = Equal | Included | Contains | Intersects | Different

  /** `hwloc_obj_cmp` on objects without node sets. */
  function ObjCmp(a: Key, b: Key): Relation {
    if a.cpus == {} || b.cpus == {} then Different
    else if a.cpus == b.cpus then
      match KindCmp(a.kind, b.kind)
      case Deeper => Included
      case Higher => Contains
      case Same => Equal
    else if a.cpus <= b.cpus then Included
    else if b.cpus <= a.cpus then Contains
    else if a.cpus * b.cpus != {} then Intersects
    else Different
  }

  /** An object of the topology. During discovery only `firstChild` and `nextSibling` are
      kept up to date. For the root of the topology `cofinite` may be set, and then
      `key.cpus` lists the CPUs that are missing. */
  class Obj {
    const key: Key
    const cofinite: bool
    const osIndex: nat
    var firstChild: Obj?
    var nextSibling: Obj?

    constructor (key: Key, cofinite: bool, osIndex: nat)
      ensures this.key == key && this.cofinite == cofinite && this.osIndex == osIndex
      ensures firstChild == null && nextSibling == null
    {
      this.key := key;
      this.cofinite := cofinite;
      this.osIndex := osIndex;
      firstChild, nextSibling := null, null;
    }

    /** `hwloc_bitmap_isincluded(cpus, this->cpuset)` for a finite set. */
    predicate Covers(cpus: set<nat>) {
      if cofinite then key.cpus !! cpus else cpus <= key.cpus
    }
  }

  // ---- First CPUs ----

  ghost predicate IsFirst(s: set<nat>, m: nat) {
    m in s && forall x :: x in s ==> m <= x
  }

  lemma FirstExists(s: set<nat>)
    requires s != {}
    ensures exists m :: IsFirst(s, m)
  {
    var x :| x in s;
    if s == {x} {
      assert IsFirst(s, x);
    } else {
      FirstExists(s - {x});
      var m :| IsFirst(s - {x}, m);
      assert forall y :: y in s ==> y == x || y in s - {x};
      assert IsFirst(s, if x < m then x else m);
    }
  }

  /** `hwloc_bitmap_first` of a finite non-empty set. */
  function First(s: set<nat>): (m: nat)
    requires s != {}
    ensures IsFirst(s, m)
  {
    FirstExists(s);
    var m :| m in s && forall x :: x in s ==> m <= x;
    m
  }

  // ---- Families ----

  /** Objects that can live below `root` in one tree. */
  ghost predicate Proper(root: Obj, o: Key) {
    o.cpus != {} && Ordinary(o.kind)
  }

  predicate Compatible(a: Key, b: Key) {
    ObjCmp(a, b) in {Included, Contains, Different}
  }

  ghost predicate Family(root: Obj, s: set<Obj>) {
    && root !in s
    && (forall o :: o in s ==> Proper(root, o.key) && root.Covers(o.key.cpus))
    && (forall a, b :: a in s && b in s && a != b ==> Compatible(a.key, b.key))
  }

  /** What an insertion must find to succeed: the new object fits in the root and neither
      crosses nor equals an object already there. */
  ghost predicate Admits(root: Obj, s: set<Obj>, o: Obj) {
    root.Covers(o.key.cpus) && forall x :: x in s ==> Compatible(o.key, x.key)
  }

  predicate Below(a: Obj, b: Obj) {
    ObjCmp(a.key, b.key) == Included
  }

  function Converse(r: Relation): Relation {
    match r
    case Included => Contains
    case Contains => Included
    case _ => r
  }

  lemma CmpConverse(a: Key, b: Key)
    requires Ordinary(a.kind) && Ordinary(b.kind)
    ensures ObjCmp(b, a) == Converse(ObjCmp(a, b))
  {
    KindCmpReverses(a.kind, b.kind);
    assert a.cpus * b.cpus == b.cpus * a.cpus;
  }

  lemma BelowTransitive(a: Obj, b: Obj, c: Obj)
    requires Ordinary(a.key.kind) && Ordinary(b.key.kind) && Ordinary(c.key.kind)
    requires Below(a, b) && Below(b, c)
    ensures Below(a, c)
  {
    if a.key.cpus == b.key.cpus == c.key.cpus {
      KindCmpTransitive(a.key.kind, b.key.kind, c.key.kind);
    }
  }

  // ---- Parents and children ----

  /** `p` is the smallest member of the family (or else the root) strictly above `c`. */
  ghost predicate IsParent(root: Obj, s: set<Obj>, p: Obj, c: Obj) {
    && (p == root || (p in s && Below(c, p)))
    && (forall q :: q in s && Below(c, q) ==> q == p || (p != root && Below(p, q)))
  }

  ghost function Children(root: Obj, s: set<Obj>, p: Obj): set<Obj> {
    set c | c in s && IsParent(root, s, p, c)
  }

  lemma ChildrenDisjoint(root: Obj, s: set<Obj>, p: Obj, c: Obj, d: Obj)
    requires Family(root, s) && p in s + {root}
    requires c in Children(root, s, p) && d in Children(root, s, p) && c != d
    ensures ObjCmp(c.key, d.key) == Different && c.key.cpus !! d.key.cpus
  {
    assert Compatible(c.key, d.key);
    CmpConverse(c.key, d.key);
    if Below(c, d) {
      CmpConverse(d.key, p.key);
    } else if Below(d, c) {
      CmpConverse(c.key, p.key);
    }
    assert forall x :: x in c.key.cpus && x in d.key.cpus ==> x in c.key.cpus * d.key.cpus;
  }

  ghost function Uppers(s: set<Obj>, x: Obj): set<Obj> {
    set q | q in s && Below(x, q)
  }

  lemma {:induction false} ParentExists(root: Obj, s: set<Obj>, x: Obj, u: set<Obj>) returns (p: Obj)
    requires Family(root, s) && x in s
    requires u <= Uppers(s, x)
    ensures p == root ==> u == {}
    ensures p != root ==> p in u && forall q :: q in u ==> q == p || Below(p, q)
  {
    if u == {} {
      return root;
    }
    var q :| q in u;
    var rest := ParentExists(root, s, x, u - {q});
    if rest == root {
      assert u == {q};
      return q;
    }
    assert Compatible(q.key, rest.key);
    CmpConverse(q.key, rest.key);
    if Below(q, rest) {
      forall r | r in u && r != q
        ensures Below(q, r)
      {
        if r != rest {
          BelowTransitive(q, rest, r);
        }
      }
      return q;
    }
    assert q.key.cpus * rest.key.cpus != {} by {
      assert x.key.cpus <= q.key.cpus * rest.key.cpus;
    }
    return rest;
  }

  /** Whatever is below `p` is one of its children or below one of them. */
  lemma {:induction false} ChildCovers(root: Obj, s: set<Obj>, p: Obj, x: Obj) returns (c: Obj)
    requires Family(root, s) && p in s + {root} && x in s
    requires p == root || Below(x, p)
    ensures c in Children(root, s, p) && (x == c || Below(x, c))
    decreases |Uppers(s, x)|
  {
    var q := ParentExists(root, s, x, Uppers(s, x));
    assert IsParent(root, s, q, x);
    if q == p {
      return x;
    }
    assert q != root && Below(x, q);
    assert p == root || Below(q, p);
    assert Uppers(s, q) < Uppers(s, x) by {
      forall r | r in Uppers(s, q)
        ensures r in Uppers(s, x)
      {
        BelowTransitive(x, q, r);
      }
      assert q in Uppers(s, x);
      CmpConverse(q.key, q.key);
    }
    SubsetIsSmaller(Uppers(s, q), Uppers(s, x));
    c := ChildCovers(root, s, p, q);
    if c != q {
      BelowTransitive(x, q, c);
    }
  }

  // ---- What inserting one object does to the tree ----

  /** The object the insertion stops at: `o` goes directly below `p`. */
  ghost predicate Host(root: Obj, s: set<Obj>, p: Obj, o: Obj) {
    && p in s + {root}
    && (p == root || Below(o, p))
    && (forall c :: c in Children(root, s, p) ==> ObjCmp(o.key, c.key) in {Different, Contains})
  }

  /** Looking only at the children of the host decides the whole family. */
  lemma HostAdmits(root: Obj, s: set<Obj>, p: Obj, o: Obj)
    requires Family(root, s) && Proper(root, o.key) && root.Covers(o.key.cpus)
    requires Host(root, s, p, o)
    ensures Admits(root, s, o)
  {
    forall x | x in s
      ensures Compatible(o.key, x.key)
    {
      HostDecides(root, s, p, o, x);
    }
  }

  lemma HostDecides(root: Obj, s: set<Obj>, p: Obj, o: Obj, x: Obj)
    requires Family(root, s) && Proper(root, o.key) && root.Covers(o.key.cpus)
    requires Host(root, s, p, o) && x in s
    ensures Compatible(o.key, x.key)
    ensures Below(o, x) ==> x == p || (p != root && Below(p, x))
    ensures Below(x, o) ==> exists c :: c in Children(root, s, p) && Below(c, o) && (x == c || Below(x, c))
  {
    CmpConverse(o.key, x.key);
    if x == p {
    } else if p != root && Below(p, x) {
      BelowTransitive(o, p, x);
    } else if p == root || Below(x, p) {
      var c := ChildCovers(root, s, p, x);
      CmpConverse(o.key, c.key);
      if ObjCmp(o.key, c.key) == Contains && x != c {
        BelowTransitive(x, c, o);
      }
      if ObjCmp(o.key, c.key) == Different {
        assert o.key.cpus * c.key.cpus == {};
        assert x.key.cpus <= c.key.cpus;
        assert o.key.cpus * x.key.cpus == {};
      }
    } else {
      assert Compatible(p.key, x.key);
      CmpConverse(p.key, x.key);
      assert p.key.cpus * x.key.cpus == {};
      assert o.key.cpus <= p.key.cpus;
      assert o.key.cpus * x.key.cpus == {};
    }
  }

  /** An object that crosses or equals a child of a node it is inside of is not admitted, and
      one that is inside two children at once does not exist. */
  lemma InsideOne(root: Obj, s: set<Obj>, p: Obj, c: Obj, d: Obj, o: Obj)
    requires Family(root, s) && Proper(root, o.key) && p in s + {root}
    requires c in Children(root, s, p) && d in Children(root, s, p)
    requires Below(o, c) && Below(o, d)
    ensures c == d
  {
    if c != d {
      var x :| x in o.key.cpus;
      ChildrenDisjoint(root, s, p, c, d);
    }
  }

  lemma FamilyGrows(root: Obj, s: set<Obj>, o: Obj)
    requires Family(root, s) && o !in s + {root} && Proper(root, o.key) && Admits(root, s, o)
    ensures Family(root, s + {o})
  {
    forall a, b | a in s + {o} && b in s + {o} && a != b
      ensures Compatible(a.key, b.key)
    {
      CmpConverse(a.key, b.key);
      if a == o {
        assert Compatible(o.key, b.key);
      } else if b == o {
        assert Compatible(o.key, a.key);
      }
    }
  }

  lemma ParentAfterInsert(root: Obj, s: set<Obj>, p: Obj, o: Obj, q: Obj, x: Obj)
    requires Family(root, s) && o !in s + {root} && Proper(root, o.key) && root.Covers(o.key.cpus)
    requires Host(root, s, p, o) && q in s + {root} && x in s
    ensures IsParent(root, s + {o}, q, x) <==> IsParent(root, s, q, x) && !(q == p && Below(x, o))
  {
    HostDecides(root, s, p, o, x);
    CmpConverse(o.key, x.key);
    if q == p && Below(x, o) {
      if p != root {
        CmpConverse(o.key, p.key);
      }
      assert o in s + {o} && Below(x, o);
    } else if Below(x, o) && IsParent(root, s, q, x) {
      var c :| c in Children(root, s, p) && Below(c, o) && (x == c || Below(x, c));
      if x == c {
        OneParent(root, s, p, q, x);
      } else if q != c {
        BelowTransitive(q, c, o);
      }
    }
  }

  lemma OneParent(root: Obj, s: set<Obj>, p: Obj, q: Obj, x: Obj)
    requires Family(root, s) && p in s + {root} && q in s + {root} && x in s
    requires IsParent(root, s, p, x) && IsParent(root, s, q, x)
    ensures p == q
  {
    if p != q && p != root && q != root {
      CmpConverse(p.key, q.key);
    }
  }

  lemma NewObjectPlaced(root: Obj, s: set<Obj>, p: Obj, o: Obj)
    requires Family(root, s) && o !in s + {root} && Proper(root, o.key) && root.Covers(o.key.cpus)
    requires Host(root, s, p, o)
    ensures forall q :: q in s + {root} ==> (IsParent(root, s + {o}, q, o) <==> q == p)
    ensures !IsParent(root, s + {o}, o, o)
    ensures forall x :: x in s ==>
      (IsParent(root, s + {o}, o, x) <==> x in Children(root, s, p) && Below(x, o))
  {
    CmpConverse(o.key, o.key);
    forall x | x in s
      ensures Below(o, x) ==> x == p || (p != root && Below(p, x))
    {
      HostDecides(root, s, p, o, x);
    }
    assert IsParent(root, s + {o}, p, o);
    FamilyGrows'(root, s, p, o);
    forall q | q in s + {root} && IsParent(root, s + {o}, q, o)
      ensures q == p
    {
      OneParent(root, s + {o}, p, q, o);
    }
    forall x | x in s
      ensures IsParent(root, s + {o}, o, x) <==> x in Children(root, s, p) && Below(x, o)
    {
      NewObjectAdopts(root, s, p, o, x);
    }
  }

  lemma FamilyGrows'(root: Obj, s: set<Obj>, p: Obj, o: Obj)
    requires Family(root, s) && o !in s + {root} && Proper(root, o.key) && root.Covers(o.key.cpus)
    requires Host(root, s, p, o)
    ensures Family(root, s + {o})
  {
    HostAdmits(root, s, p, o);
    FamilyGrows(root, s, o);
  }

  lemma NewObjectAdopts(root: Obj, s: set<Obj>, p: Obj, o: Obj, x: Obj)
    requires Family(root, s) && o !in s + {root} && Proper(root, o.key) && root.Covers(o.key.cpus)
    requires Host(root, s, p, o) && x in s
    ensures IsParent(root, s + {o}, o, x) <==> x in Children(root, s, p) && Below(x, o)
  {
    HostDecides(root, s, p, o, x);
    CmpConverse(o.key, o.key);
    if Below(x, o) {
      var c :| c in Children(root, s, p) && Below(c, o) && (x == c || Below(x, c));
      if x == c {
        forall q | q in s && Below(x, q)
          ensures Below(o, q)
        {
          if q != p {
            BelowTransitive(o, p, q);
          }
        }
      } else {
        assert c in s + {o} && Below(x, c);
        CmpConverse(o.key, c.key);
        if p != root {
          CmpConverse(c.key, p.key);
        }
      }
    }
  }

  // ---- The tree itself ----

  type Kids = map<Obj, seq<Obj>>

  ghost function FirstCpu(o: Obj): int {
    if o.key.cpus == {} then -1 else First(o.key.cpus)
  }

  ghost predicate Ordered(q: seq<Obj>) {
    forall i, j :: 0 <= i < j < |q| ==> FirstCpu(q[i]) < FirstCpu(q[j])
  }

  ghost function Elements(q: seq<Obj>): set<Obj> {
    set o | o in q
  }

  /** `kids` gives every object of the family, and the root, its children in order of their
      first CPU. */
  ghost predicate IsTree(root: Obj, s: set<Obj>, kids: Kids) {
    && kids.Keys == s + {root}
    && (forall p :: p in kids ==> Ordered(kids[p]) && Elements(kids[p]) == Children(root, s, p))
  }

  lemma KeysOfTree(root: Obj, s: set<Obj>, kids: Kids)
    requires IsTree(root, s, kids)
    ensures kids.Keys == s + {root}
  {
  }

  lemma NoElements(q: seq<Obj>)
    ensures Elements(q) == {} <==> q == []
  {
    if q != [] {
      assert q[0] in Elements(q);
    }
  }

  lemma {:induction false} OrderedUnique(q: seq<Obj>, r: seq<Obj>)
    requires Ordered(q) && Ordered(r) && Elements(q) == Elements(r)
    ensures q == r
  {
    NoElements(q);
    NoElements(r);
    if q != [] {
      assert q[0] in Elements(r);
      assert r[0] in Elements(q);
      assert q[0] == r[0];
      forall x
        ensures x in Elements(q[1..]) <==> x in Elements(q) && x != q[0]
        ensures x in Elements(r[1..]) <==> x in Elements(r) && x != r[0]
      {
        assert q == [q[0]] + q[1..] && r == [r[0]] + r[1..];
      }
      OrderedUnique(q[1..], r[1..]);
    }
  }

  /** A family has only one tree, so the tree does not depend on how it was built. */
  lemma TreeUnique(root: Obj, s: set<Obj>, k1: Kids, k2: Kids)
    requires IsTree(root, s, k1) && IsTree(root, s, k2)
    ensures k1 == k2
  {
    forall p | p in k1
      ensures k1[p] == k2[p]
    {
      OrderedUnique(k1[p], k2[p]);
    }
  }

  lemma ChildAfterInsert(root: Obj, s: set<Obj>, kids: Kids, p: Obj, o: Obj, kept: seq<Obj>, taken: seq<Obj>,
                         q: Obj, x: Obj)
    requires Family(root, s) && IsTree(root, s, kids)
    requires o !in kids && Proper(root, o.key) && root.Covers(o.key.cpus) && Host(root, s, p, o)
    requires Elements(kept) == (set c | c in kids[p] && ObjCmp(o.key, c.key) == Different) + {o}
    requires Elements(taken) == set c | c in kids[p] && ObjCmp(o.key, c.key) == Contains
    requires q in s + {root, o}
    ensures x in kids[p := kept][o := taken][q] <==> x in Children(root, s + {o}, q)
  {
    assert x in kept <==> x in Elements(kept);
    assert x in taken <==> x in Elements(taken);
    assert x in kids[p] <==> x in Elements(kids[p]);
    if x == o {
      NewObjectPlaced(root, s, p, o);
      assert q != o ==> (x in kids[q] <==> x in Elements(kids[q]));
      hide IsParent, Host, ObjCmp;
    } else if x in s {
      CmpConverse(o.key, x.key);
      if q == o {
        NewObjectAdopts(root, s, p, o, x);
      } else {
        ParentAfterInsert(root, s, p, o, q, x);
        assert x in kids[q] <==> x in Elements(kids[q]);
      }
    } else if q != o {
      assert x in kids[q] <==> x in Elements(kids[q]);
    }
  }

  /** What the linking loop of the insertion has to produce is the tree of the larger family. */
  lemma TreeAfterInsert(root: Obj, s: set<Obj>, kids: Kids, p: Obj, o: Obj, kept: seq<Obj>, taken: seq<Obj>)
    requires Family(root, s) && IsTree(root, s, kids)
    requires o !in kids && Proper(root, o.key) && root.Covers(o.key.cpus) && Host(root, s, p, o)
    requires Ordered(kept) && Ordered(taken)
    requires Elements(kept) == (set c | c in kids[p] && ObjCmp(o.key, c.key) == Different) + {o}
    requires Elements(taken) == set c | c in kids[p] && ObjCmp(o.key, c.key) == Contains
    ensures IsTree(root, s + {o}, kids[p := kept][o := taken])
  {
    assert p in kids;
    hide IsParent, Host, ObjCmp;
    var kids' := kids[p := kept][o := taken];
    assert kids'.Keys == s + {o} + {root};
    forall q | q in kids'
      ensures Elements(kids'[q]) == Children(root, s + {o}, q)
    {
      forall x
        ensures x in Elements(kids'[q]) <==> x in Children(root, s + {o}, q)
      {
        ChildAfterInsert(root, s, kids, p, o, kept, taken, q, x);
      }
    }
  }
}
