/** PCI devices and bridges (src/topology-libpci.c): how bus ids compare and which bridge each
    object belongs below. */
module PciFamily {
  import opened Collections

  /** The bus id of an object, and the buses behind it when it is a bridge. */
  datatype PciId = PciId(domain: nat, bus: nat, dev: nat, func: nat, bridge: bool, secondary: nat, subordinate: nat)

  class Pci {
    const id: PciId
    var firstChild: Pci?
    var lastChild: Pci?
    var prevSibling: Pci?
    var nextSibling: Pci?
    /** Set for host bridges only, which are not PCI devices themselves. */
    var downstream: Downstream

    constructor (id: PciId)
      ensures this.id == id && firstChild == lastChild == prevSibling == nextSibling == null
      ensures downstream == NotSet
    {
      this.id := id;
      firstChild, lastChild, prevSibling, nextSibling := null, null, null, null;
      downstream := NotSet;
    }
  }

  datatype Downstream = NotSet | Buses(domain: nat, secondary: nat, subordinate: nat)

  // ---- Comparing ----

  datatype Comparison = Lower | Higher | Included | Superset

  /** The bus of `a` is behind the bridge `b`. */
  predicate Inside(a: PciId, b: PciId) {
    b.bridge && a.domain == b.domain && b.secondary <= a.bus <= b.subordinate
  }

  predicate SameId(a: PciId, b: PciId) {
    a.domain == b.domain && a.bus == b.bus && a.dev == b.dev && a.func == b.func
  }

  /** The comparison reaches an answer, and not the assertion at its end. */
  predicate Comparable(a: PciId, b: PciId) {
    Inside(a, b) || Inside(b, a) || !SameId(a, b)
  }

  /** `hwloc_pci_compare_busids`. */
  function Compare(a: PciId, b: PciId): Comparison
    requires Comparable(a, b)
  {
    if a.domain < b.domain then Lower
    else if a.domain > b.domain then Higher
    else if a.bridge && a.secondary <= b.bus <= a.subordinate then Superset
    else if b.bridge && b.secondary <= a.bus <= b.subordinate then Included
    else if a.bus < b.bus then Lower
    else if a.bus > b.bus then Higher
    else if a.dev < b.dev then Lower
    else if a.dev > b.dev then Higher
    else if a.func < b.func then Lower
    else Higher
  }

  /** The order of domain, bus, device and function. */
  predicate Precedes(a: PciId, b: PciId) {
    if a.domain != b.domain then a.domain < b.domain
    else if a.bus != b.bus then a.bus < b.bus
    else if a.dev != b.dev then a.dev < b.dev
    else a.func < b.func
  }

  /** The number that identifies a device: 8 bits for the bus, 5 for the device, 3 for the function. */
  function BusId(a: PciId): nat {
    ((a.domain * 256 + a.bus) * 32 + a.dev) * 8 + a.func
  }

  predicate InBits(a: PciId) {
    a.bus < 256 && a.dev < 32 && a.func < 8
  }

  /** Which is the order of the numbers. */
  lemma PrecedesIsNumeric(a: PciId, b: PciId)
    requires InBits(a) && InBits(b)
    ensures Precedes(a, b) <==> BusId(a) < BusId(b)
  {
  }

  /** A bridge leads away from its own bus. */
  predicate Sound(a: PciId) {
    a.bridge ==> a.bus < a.secondary <= a.subordinate
  }

  predicate Overlap(a: PciId, b: PciId) {
    a.bridge && b.bridge && a.domain == b.domain && a.secondary <= b.subordinate && b.secondary <= a.subordinate
  }

  predicate Nested(a: PciId, b: PciId) {
    Inside(a, b) && a.bridge ==> b.secondary <= a.secondary && a.subordinate <= b.subordinate
  }

  /** What is true of two objects of one machine: their bus ids differ, and the ranges of bridges
      are disjoint, or one bridge is behind the other with its whole range. */
  predicate Compatible(a: PciId, b: PciId) {
    && !SameId(a, b)
    && (Overlap(a, b) ==> Inside(a, b) || Inside(b, a))
    && Nested(a, b) && Nested(b, a)
  }

  lemma CompareMeans(a: PciId, b: PciId)
    requires Sound(a) && Sound(b) && Compatible(a, b)
    ensures Comparable(a, b)
    ensures Compare(a, b) == Included <==> Inside(a, b)
    ensures Compare(a, b) == Superset <==> Inside(b, a)
    ensures Compare(a, b) == Lower <==> !Inside(a, b) && !Inside(b, a) && Precedes(a, b)
    ensures Compare(a, b) == Higher <==> !Inside(a, b) && !Inside(b, a) && Precedes(b, a)
    ensures Inside(a, b) ==> !Inside(b, a) && Precedes(b, a)
  {
  }

  lemma InsideTransitive(a: PciId, b: PciId, c: PciId)
    requires Inside(a, b) && Inside(b, c) && Nested(b, c)
    ensures Inside(a, c)
  {
  }

  /** Two bridges that an object is behind are behind one another. */
  lemma BridgesNest(x: PciId, a: PciId, b: PciId)
    requires Inside(x, a) && Inside(x, b) && Compatible(a, b)
    ensures Inside(a, b) || Inside(b, a)
  {
  }

  lemma PrecedesTransitive(a: PciId, b: PciId, c: PciId)
    requires Precedes(a, b) && Precedes(b, c)
    ensures Precedes(a, c)
  {
  }

  // ---- Families ----

  ghost predicate Family(root: Pci, s: set<Pci>) {
    && root !in s
    && (forall a :: a in s ==> Sound(a.id))
    && (forall a, b :: a in s && b in s && a != b ==> Compatible(a.id, b.id))
  }

  lemma Smaller(root: Pci, s: set<Pci>, o: Pci)
    requires Family(root, s + {o})
    ensures Family(root, s)
  {
  }

  lemma NotInsideItself(root: Pci, s: set<Pci>, a: Pci)
    requires Family(root, s) && a in s
    ensures !Inside(a.id, a.id)
  {
  }

  /** `p` is the smallest bridge range that has the bus of `c`, or the root if none has. */
  ghost predicate IsParent(root: Pci, s: set<Pci>, p: Pci, c: Pci) {
    && (p == root || (p in s && Inside(c.id, p.id)))
    && (forall q :: q in s && Inside(c.id, q.id) ==> q == p || (p != root && Inside(p.id, q.id)))
  }

  ghost function Children(root: Pci, s: set<Pci>, p: Pci): set<Pci> {
    set c | c in s && IsParent(root, s, p, c)
  }

  lemma OneParent(root: Pci, s: set<Pci>, p: Pci, q: Pci, x: Pci)
    requires Family(root, s) && p in s + {root} && q in s + {root} && x in s
    requires IsParent(root, s, p, x) && IsParent(root, s, q, x)
    ensures p == q
  {
    if p != q && p != root && q != root {
      CompareMeans(p.id, q.id);
    }
  }

  /** No child is behind its sibling. */
  lemma SiblingsApart(root: Pci, s: set<Pci>, p: Pci, c: Pci, d: Pci)
    requires Family(root, s) && p in s + {root}
    requires c in Children(root, s, p) && d in Children(root, s, p) && c != d
    ensures !Inside(c.id, d.id)
  {
    if Inside(c.id, d.id) && p != root {
      CompareMeans(p.id, d.id);
    }
  }

  ghost function Uppers(s: set<Pci>, x: Pci): set<Pci> {
    set q | q in s && Inside(x.id, q.id)
  }

  lemma {:induction false} ParentExists(root: Pci, s: set<Pci>, x: Pci, u: set<Pci>) returns (p: Pci)
    requires Family(root, s) && u <= Uppers(s, x)
    ensures p == root ==> u == {}
    ensures p != root ==> p in u && forall q :: q in u ==> q == p || Inside(p.id, q.id)
  {
    if u == {} {
      return root;
    }
    var q :| q in u;
    var rest := ParentExists(root, s, x, u - {q});
    if rest == root {
      assert u == {q};
      return q;
    }
    BridgesNest(x.id, q.id, rest.id);
    if Inside(q.id, rest.id) {
      forall r | r in u && r != q
        ensures Inside(q.id, r.id)
      {
        if r != rest {
          InsideTransitive(q.id, rest.id, r.id);
        }
      }
      return q;
    }
    return rest;
  }

  /** Whatever is behind `p` is one of its children or behind one of them. */
  lemma {:induction false} ChildCovers(root: Pci, s: set<Pci>, p: Pci, x: Pci) returns (c: Pci)
    requires Family(root, s) && p in s + {root} && x in s
    requires p == root || Inside(x.id, p.id)
    ensures c in Children(root, s, p) && (x == c || Inside(x.id, c.id))
    decreases |Uppers(s, x)|
  {
    var q := ParentExists(root, s, x, Uppers(s, x));
    assert IsParent(root, s, q, x);
    if q == p {
      return x;
    }
    assert q != root && Inside(x.id, q.id);
    assert p == root || Inside(q.id, p.id);
    UppersShrink(root, s, x, q);
    c := ChildCovers(root, s, p, q);
    if c != q {
      InsideTransitive(x.id, q.id, c.id);
    }
  }

  lemma UppersShrink(root: Pci, s: set<Pci>, x: Pci, q: Pci)
    requires Family(root, s) && q in Uppers(s, x)
    ensures |Uppers(s, q)| < |Uppers(s, x)|
  {
    forall r | r in Uppers(s, q)
      ensures r in Uppers(s, x)
    {
      if r != q {
        InsideTransitive(x.id, q.id, r.id);
      }
    }
    NotInsideItself(root, s, q);
    assert q in Uppers(s, x) && q !in Uppers(s, q);
    SubsetIsSmaller(Uppers(s, q), Uppers(s, x));
  }

  // ---- What adding one object does to the tree ----

  /** The object that `o` goes directly below. */
  ghost predicate Host(root: Pci, s: set<Pci>, p: Pci, o: Pci) {
    && p in s + {root}
    && (p == root || Inside(o.id, p.id))
    && (forall c :: c in Children(root, s, p) ==> !Inside(o.id, c.id))
  }

  lemma HostDecides(root: Pci, s: set<Pci>, p: Pci, o: Pci, x: Pci)
    requires Family(root, s + {o}) && o !in s && Host(root, s, p, o) && x in s
    ensures Inside(o.id, x.id) ==> x == p || (p != root && Inside(p.id, x.id))
    ensures Inside(x.id, o.id) ==> exists c ::
        c in Children(root, s, p) && Inside(c.id, o.id) && (x == c || Inside(x.id, c.id))
  {
    if Inside(o.id, x.id) && x != p && !(p != root && Inside(p.id, x.id)) {
      if p != root {
        BridgesNest(o.id, p.id, x.id);
      }
      var c := ChildCovers(root, s, p, x);
      if x != c {
        InsideTransitive(o.id, x.id, c.id);
      }
    }
    if Inside(x.id, o.id) {
      if p != root {
        InsideTransitive(x.id, o.id, p.id);
      }
      var c := ChildCovers(root, s, p, x);
      if x != c {
        BridgesNest(x.id, o.id, c.id);
      }
    }
  }

  /** The only objects whose parent changes are children of the host that are behind `o`. */
  lemma ParentAfterAdding(root: Pci, s: set<Pci>, p: Pci, o: Pci, q: Pci, x: Pci)
    requires Family(root, s + {o}) && o !in s && Host(root, s, p, o) && q in s + {root} && x in s
    ensures IsParent(root, s + {o}, q, x) <==> IsParent(root, s, q, x) && !(q == p && Inside(x.id, o.id))
  {
    HostDecides(root, s, p, o, x);
    CompareMeans(o.id, x.id);
    if q == p && Inside(x.id, o.id) {
      if p != root {
        CompareMeans(o.id, p.id);
      }
      assert o in s + {o};
    } else if Inside(x.id, o.id) && IsParent(root, s, q, x) {
      var c :| c in Children(root, s, p) && Inside(c.id, o.id) && (x == c || Inside(x.id, c.id));
      if x == c {
        OneParent(root, s, p, q, x);
      } else if q != c {
        InsideTransitive(q.id, c.id, o.id);
      }
    }
  }

  lemma NewObjectPlaced(root: Pci, s: set<Pci>, p: Pci, o: Pci, q: Pci)
    requires Family(root, s + {o}) && o !in s && Host(root, s, p, o) && q in s + {root, o}
    ensures IsParent(root, s + {o}, q, o) <==> q == p
  {
    NotInsideItself(root, s + {o}, o);
    forall x | x in s
      ensures Inside(o.id, x.id) ==> x == p || (p != root && Inside(p.id, x.id))
    {
      HostDecides(root, s, p, o, x);
    }
    assert IsParent(root, s + {o}, p, o);
    if q != p && IsParent(root, s + {o}, q, o) {
      OneParent(root, s + {o}, p, q, o);
    }
  }

  lemma NewObjectAdopts(root: Pci, s: set<Pci>, p: Pci, o: Pci, x: Pci)
    requires Family(root, s + {o}) && o !in s && Host(root, s, p, o) && x in s
    ensures IsParent(root, s + {o}, o, x) <==> x in Children(root, s, p) && Inside(x.id, o.id)
  {
    HostDecides(root, s, p, o, x);
    NotInsideItself(root, s + {o}, o);
    if Inside(x.id, o.id) {
      var c :| c in Children(root, s, p) && Inside(c.id, o.id) && (x == c || Inside(x.id, c.id));
      CompareMeans(o.id, c.id);
      if x == c {
        forall q | q in s && Inside(x.id, q.id)
          ensures Inside(o.id, q.id)
        {
          if q != p {
            InsideTransitive(o.id, p.id, q.id);
          }
        }
      } else {
        assert c in s + {o} && Inside(x.id, c.id);
        if p != root {
          CompareMeans(c.id, p.id);
        }
      }
    }
  }

  // ---- The tree itself ----

  type Kids = map<Pci, seq<Pci>>

  ghost predicate Sorted(q: seq<Pci>) {
    forall i, j :: 0 <= i < j < |q| ==> Precedes(q[i].id, q[j].id)
  }

  ghost function Elements(q: seq<Pci>): set<Pci> {
    set o | o in q
  }

  /** Every object of the family, and the root, has the children that it should have, in the order
      of their bus ids. */
  ghost predicate IsTree(root: Pci, s: set<Pci>, kids: Kids) {
    && s + {root} <= kids.Keys
    && (forall p :: p in s + {root} ==> Sorted(kids[p]) && Elements(kids[p]) == Children(root, s, p))
  }

  lemma NoElements(q: seq<Pci>)
    ensures Elements(q) == {} <==> q == []
  {
    if q != [] {
      assert q[0] in Elements(q);
    }
  }

  lemma {:induction false} SortedUnique(q: seq<Pci>, r: seq<Pci>)
    requires Sorted(q) && Sorted(r) && Elements(q) == Elements(r)
    ensures q == r
  {
    NoElements(q);
    NoElements(r);
    if q != [] {
      assert q[0] in Elements(r);
      assert r[0] in Elements(q);
      assert q[0] == r[0];
      forall x
        ensures x in Elements(q[1..]) <==> x in Elements(q) && x != q[0]
        ensures x in Elements(r[1..]) <==> x in Elements(r) && x != r[0]
      {
        assert q == [q[0]] + q[1..] && r == [r[0]] + r[1..];
      }
      SortedUnique(q[1..], r[1..]);
    }
  }

  /** A family has only one tree, so the order in which the devices are found does not matter. */
  lemma TreeUnique(root: Pci, s: set<Pci>, k1: Kids, k2: Kids, p: Pci)
    requires IsTree(root, s, k1) && IsTree(root, s, k2) && p in s + {root}
    ensures k1[p] == k2[p]
  {
    SortedUnique(k1[p], k2[p]);
  }

  lemma ChildAfterAdding(root: Pci, s: set<Pci>, kids: Kids, p: Pci, o: Pci, kept: seq<Pci>, taken: seq<Pci>, q: Pci,
      x: Pci)
    requires Family(root, s + {o}) && o !in s + {root} && IsTree(root, s, kids) && Host(root, s, p, o)
    requires forall c :: c in kept <==> c == o || (c in kids[p] && !Inside(c.id, o.id))
    requires forall c :: c in taken <==> c in kids[p] && Inside(c.id, o.id)
    requires q in s + {root, o}
    ensures x in kids[p := kept][o := taken][q] <==> x in Children(root, s + {o}, q)
  {
    assert x in kids[p] <==> x in Elements(kids[p]);
    assert q != o ==> (x in kids[q] <==> x in Elements(kids[q]));
    hide Inside;
    if x == o {
      NewObjectPlaced(root, s, p, o, q);
    } else if x in s {
      if q == o {
        NewObjectAdopts(root, s, p, o, x);
      } else {
        ParentAfterAdding(root, s, p, o, q, x);
      }
    }
  }

  lemma TreeAfterAdding(root: Pci, s: set<Pci>, kids: Kids, p: Pci, o: Pci, kept: seq<Pci>, taken: seq<Pci>)
    requires Family(root, s + {o}) && o !in s + {root} && IsTree(root, s, kids) && Host(root, s, p, o)
    requires Sorted(kept) && Sorted(taken)
    requires forall c :: c in kept <==> c == o || (c in kids[p] && !Inside(c.id, o.id))
    requires forall c :: c in taken <==> c in kids[p] && Inside(c.id, o.id)
    ensures IsTree(root, s + {o}, kids[p := kept][o := taken])
  {
    hide IsParent, Inside, Sorted;
    var kids' := kids[p := kept][o := taken];
    forall q | q in s + {o} + {root}
      ensures Elements(kids'[q]) == Children(root, s + {o}, q) && Sorted(kids'[q])
    {
      forall x
        ensures x in Elements(kids'[q]) <==> x in Children(root, s + {o}, q)
      {
        ChildAfterAdding(root, s, kids, p, o, kept, taken, q, x);
      }
    }
  }
}
