/** Which of two objects of a tree is above the other (src/topology.c), told without the comparisons
    that the insertion makes: the larger CPU set, and for equal sets the order of the types. */
module TreeOrder {
  import opened Collections
  import opened ObjTypes
  import opened Hierarchy
  import opened Insertion
  import opened Discovery

  // ---- The order of the types ----

  /** From the top of a machine to its bottom. */
  const NESTING := [System, Machine, Group, NumaNode, Socket, Cache, Core, PU, Misc]

  ghost predicate Higher(a: ObjType, b: ObjType) {
    exists i, j :: 0 <= i < j < |NESTING| && NESTING[i] == a && NESTING[j] == b
  }

  /** `a` comes before `b` in the dictionary. */
  ghost predicate DictionaryBefore(a: string, b: string) {
    exists k: nat :: k <= |a| && k < |b| && a[..k] == b[..k] && (k == |a| || a[k] < b[k])
  }

  /** Which of two objects with the same CPUs goes above: the one of the higher type, the deeper
      cache or group, or the Misc object whose name comes later. */
  ghost predicate Outranks(a: Kind, b: Kind) {
    || Higher(a.typ, b.typ)
    || (a.typ == b.typ && a.typ in {Cache, Group} && a.depth > b.depth)
    || (a.typ == b.typ == Misc && DictionaryBefore(b.name, a.name))
  }

  lemma HigherIsOrder(a: ObjType, b: ObjType)
    requires !IsIo(a) && !IsIo(b)
    ensures Higher(a, b) <==> CompareTypes(a, b) < 0
    ensures CompareTypes(a, b) == 0 <==> a == b
  {
    var i, j := PlaceOf(a), PlaceOf(b);
    OnePlace(a);
    OnePlace(b);
    if CompareTypes(a, b) < 0 {
      assert i < j && NESTING[i] == a && NESTING[j] == b;
    }
  }

  /** The place of a type in the list. */
  function PlaceOf(t: ObjType): (i: nat)
    requires !IsIo(t)
    ensures i < |NESTING| && NESTING[i] == t
  {
    match t
    case System => 0
    case Machine => 1
    case Group => 2
    case NumaNode => 3
    case Socket => 4
    case Cache => 5
    case Core => 6
    case PU => 7
    case Misc => 8
  }

  lemma OnePlace(t: ObjType)
    requires !IsIo(t)
    ensures forall i :: 0 <= i < |NESTING| && NESTING[i] == t ==> i == PlaceOf(t)
  {
  }

  lemma {:induction false} DictionaryIsOrder(a: string, b: string)
    ensures DictionaryBefore(a, b) <==> NameCmp(a, b) < 0
  {
    if a == [] || b == [] {
      if a == [] && b != [] {
        assert a[..0] == b[..0];
      }
    } else if a[0] == b[0] {
      DictionaryIsOrder(a[1..], b[1..]);
      SameStart(a, b);
    } else {
      if a[0] < b[0] {
        assert a[..0] == b[..0];
      }
      forall k: nat | 0 < k <= |a| && k < |b|
        ensures a[..k] != b[..k]
      {
        assert a[..k][0] != b[..k][0];
      }
    }
  }

  lemma SameStart(a: string, b: string)
    requires a != [] && b != [] && a[0] == b[0]
    ensures DictionaryBefore(a, b) <==> DictionaryBefore(a[1..], b[1..])
  {
    if k: nat :| k <= |a| && k < |b| && a[..k] == b[..k] && (k == |a| || a[k] < b[k]) {
      assert k > 0;
      assert a[1..][..k - 1] == a[..k][1..] && b[1..][..k - 1] == b[..k][1..];
    }
    var p, q := a[1..], b[1..];
    if k: nat :| k <= |p| && k < |q| && p[..k] == q[..k] && (k == |p| || p[k] < q[k]) {
      assert a[..k + 1] == [a[0]] + p[..k] && b[..k + 1] == [b[0]] + q[..k];
    }
  }

  lemma OutranksIsKindCmp(a: Kind, b: Kind)
    requires Ordinary(a) && Ordinary(b)
    ensures Outranks(a, b) <==> KindCmp(b, a) == Deeper
  {
    hide Higher, DictionaryBefore, NameCmp;
    HigherIsOrder(a.typ, b.typ);
    HigherIsOrder(b.typ, a.typ);
    DictionaryIsOrder(b.name, a.name);
  }

  // ---- Above and below ----

  /** The object `a` contains the object `b`. */
  ghost predicate Contains(a: Key, b: Key) {
    b.cpus < a.cpus || (a.cpus == b.cpus && Outranks(a.kind, b.kind))
  }

  lemma ContainsIsBelow(a: Obj, b: Obj)
    requires Ordinary(a.key.kind) && Ordinary(b.key.kind) && b.key.cpus != {}
    ensures Contains(a.key, b.key) <==> Below(b, a)
  {
    OutranksIsKindCmp(a.key.kind, b.key.kind);
    hide Outranks, KindCmp;
  }

  /** Two objects fit in one tree exactly when one contains the other or they have no CPU in common. */
  lemma CompatibleMeans(a: Key, b: Key)
    requires Ordinary(a.kind) && Ordinary(b.kind) && a.cpus != {} && b.cpus != {}
    ensures Compatible(a, b) <==> Contains(a, b) || Contains(b, a) || a.cpus !! b.cpus
  {
    OutranksIsKindCmp(a.kind, b.kind);
    OutranksIsKindCmp(b.kind, a.kind);
    KindCmpReverses(a.kind, b.kind);
    hide Outranks, KindCmp;
    assert a.cpus !! b.cpus ==> a.cpus * b.cpus == {};
    assert a.cpus * b.cpus == {} ==> forall x :: x in a.cpus && x in b.cpus ==> x in a.cpus * b.cpus;
  }

  /** So the insertion accepts exactly the objects that fit in the root and contain, are contained in,
      or have nothing in common with each object that is there. */
  lemma AdmitsMeans(root: Obj, s: set<Obj>, o: Obj)
    requires Proper(root, o.key) && forall x :: x in s ==> Proper(root, x.key)
    ensures Admits(root, s, o)
      <==> root.Covers(o.key.cpus)
           && forall x :: x in s ==> Contains(o.key, x.key) || Contains(x.key, o.key) || o.key.cpus !! x.key.cpus
  {
    hide Contains, Compatible;
    forall x | x in s
      ensures Compatible(o.key, x.key)
        <==> Contains(o.key, x.key) || Contains(x.key, o.key) || o.key.cpus !! x.key.cpus
    {
      CompatibleMeans(o.key, x.key);
    }
  }

  // ---- In the linked children ----

  /** Going down from `a` one child at a time, one comes to `b`, with `n` objects in between. */
  ghost predicate Steps(kids: Kids, a: Obj, b: Obj, n: nat) {
    a in kids && if n == 0 then b in kids[a] else exists c :: c in kids[a] && Steps(kids, c, b, n - 1)
  }

  ghost predicate LeadsTo(kids: Kids, a: Obj, b: Obj) {
    exists n: nat :: Steps(kids, a, b, n)
  }

  lemma ChildIsBelow(root: Obj, s: set<Obj>, kids: Kids, a: Obj, b: Obj)
    requires Family(root, s) && IsTree(root, s, kids) && a in kids && b in kids[a]
    ensures b in s && (a == root || (a in s && Below(b, a)))
  {
    hide Below;
    assert b in Elements(kids[a]);
  }

  lemma {:induction false} StepsAreBelow(root: Obj, s: set<Obj>, kids: Kids, a: Obj, b: Obj, n: nat)
    requires Family(root, s) && IsTree(root, s, kids) && a in s && Steps(kids, a, b, n)
    ensures b in s && Below(b, a)
    decreases n
  {
    hide IsTree, Below;
    RootApart(root, s, a);
    if n == 0 {
      ChildIsBelow(root, s, kids, a, b);
    } else {
      var c :| c in kids[a] && Steps(kids, c, b, n - 1);
      ChildIsBelow(root, s, kids, a, c);
      StepsAreBelow(root, s, kids, c, b, n - 1);
      BelowTransitive(b, c, a);
    }
  }

  lemma RootApart(root: Obj, s: set<Obj>, a: Obj)
    requires Family(root, s) && a in s
    ensures a != root
  {
  }

  lemma {:induction false} BelowHasSteps(root: Obj, s: set<Obj>, kids: Kids, a: Obj, b: Obj) returns (n: nat)
    requires Family(root, s) && IsTree(root, s, kids) && a in s && b in s && Below(b, a)
    ensures Steps(kids, a, b, n)
    decreases |Between(s, a, b)|
  {
    hide Below, IsParent;
    var c := ChildCovers(root, s, a, b);
    assert c in Elements(kids[a]);
    RootApart(root, s, a);
    ChildIsBelow(root, s, kids, a, c);
    if c == b {
      n := 0;
    } else {
      FewerBetween(root, s, a, c, b);
      n := BelowHasSteps(root, s, kids, c, b);
      n := n + 1;
    }
  }

  ghost function Between(s: set<Obj>, a: Obj, b: Obj): set<Obj> {
    set x | x in s && Below(b, x) && Below(x, a)
  }

  lemma FewerBetween(root: Obj, s: set<Obj>, a: Obj, c: Obj, b: Obj)
    requires Family(root, s) && a in s && b in s && c in s && Below(c, a) && Below(b, c)
    ensures |Between(s, c, b)| < |Between(s, a, b)|
  {
    CmpConverse(c.key, c.key);
    assert !Below(c, c);
    hide Below;
    forall x | x in Between(s, c, b)
      ensures x in Between(s, a, b)
    {
      BelowTransitive(x, c, a);
    }
    assert c in Between(s, a, b) && c !in Between(s, c, b);
    SubsetIsSmaller(Between(s, c, b), Between(s, a, b));
  }

  /** In the tree of a family an object is above another exactly when it contains it: when it has more
      CPUs, or the same CPUs and the higher type, the larger cache or group depth, or the later name. */
  lemma AboveMeansContains(root: Obj, s: set<Obj>, kids: Kids, a: Obj, b: Obj)
    requires Family(root, s) && IsTree(root, s, kids) && a in s && b in s
    ensures LeadsTo(kids, a, b) <==> Contains(a.key, b.key)
  {
    hide IsTree, Below, Contains;
    ContainsIsBelow(a, b);
    if n: nat :| Steps(kids, a, b, n) {
      StepsAreBelow(root, s, kids, a, b, n);
    }
    if Below(b, a) {
      var n := BelowHasSteps(root, s, kids, a, b);
    }
  }

  /** Of two caches, or two groups, with the same CPUs the one of larger depth is above. */
  lemma DeeperCacheIsAbove(root: Obj, s: set<Obj>, kids: Kids, a: Obj, b: Obj)
    requires Family(root, s) && IsTree(root, s, kids) && a in s && b in s && a.key.cpus == b.key.cpus
    requires a.key.kind.typ == b.key.kind.typ && a.key.kind.typ in {Cache, Group}
    ensures LeadsTo(kids, a, b) <==> a.key.kind.depth > b.key.kind.depth
  {
    hide IsTree, Family, LeadsTo;
    AboveMeansContains(root, s, kids, a, b);
    NotHigherThanItself(a.key.kind.typ);
  }

  lemma NotHigherThanItself(t: ObjType)
    requires !IsIo(t)
    ensures !Higher(t, t)
  {
    OnePlace(t);
  }

  /** Objects of different types with the same CPUs are above one another in the order of the list. */
  lemma TypesAreNested(root: Obj, s: set<Obj>, kids: Kids, a: Obj, b: Obj)
    requires Family(root, s) && IsTree(root, s, kids) && a in s && b in s && a.key.cpus == b.key.cpus
    requires a.key.kind.typ != b.key.kind.typ
    ensures LeadsTo(kids, a, b) <==> Higher(a.key.kind.typ, b.key.kind.typ)
    ensures LeadsTo(kids, a, b) || LeadsTo(kids, b, a)
  {
    hide IsTree, Family, LeadsTo;
    AboveMeansContains(root, s, kids, a, b);
    AboveMeansContains(root, s, kids, b, a);
    OrdinaryInFamily(root, s, a, b);
    var x, y := a.key.kind.typ, b.key.kind.typ;
    if PlaceOf(x) < PlaceOf(y) {
      assert NESTING[PlaceOf(x)] == x && NESTING[PlaceOf(y)] == y && Higher(x, y);
    } else {
      assert PlaceOf(x) != PlaceOf(y);
      assert NESTING[PlaceOf(x)] == x && NESTING[PlaceOf(y)] == y && Higher(y, x);
    }
  }

  lemma OrdinaryInFamily(root: Obj, s: set<Obj>, a: Obj, b: Obj)
    requires Family(root, s) && a in s && b in s
    ensures Ordinary(a.key.kind) && Ordinary(b.key.kind)
  {
  }

  /** A real run: the two private caches of a core, the smaller one first. */
  method PrivateCaches() returns (root: Obj, l1: Obj, l2: Obj)
    ensures l1.key == Key({0}, Kind(Cache, 1, "")) && l2.key == Key({0}, Kind(Cache, 2, ""))
    ensures root.firstChild == l2 && l2.nextSibling == null && l2.firstChild == l1 && l1.nextSibling == null
    ensures l1.firstChild == null
  {
    hide Topology.Valid, Family, IsTree, Links, Proper, Admits;
    var t := new Topology(Kind(Machine, 0, ""));
    root := t.root;
    l1 := new Obj(Key({0}, Kind(Cache, 1, "")), false, 0);
    l2 := new Obj(Key({0}, Kind(Cache, 2, "")), false, 0);
    InsertTwo(t, l1, l2);
    TopologyParts(t);
    CachesLinked(root, l1, l2, t.kids);
  }

  lemma TopologyParts(t: Topology)
    requires t.Valid()
    ensures Family(t.root, t.objects) && IsTree(t.root, t.objects, t.kids) && Links(t.kids)
  {
  }

  method InsertTwo(t: Topology, l1: Obj, l2: Obj)
    requires t.Valid() && t.objects == {} && t.kids.Keys == {t.root} && t.root.cofinite && t.root.key.cpus == {}
    requires l1.key == Key({0}, Kind(Cache, 1, "")) && l2.key == Key({0}, Kind(Cache, 2, ""))
    requires l1 !in {t.root, l2} && l2 != t.root && !l1.cofinite && !l2.cofinite
    modifies t, t.root, l1, l2
    ensures t.Valid() && t.objects == {l1, l2}
  {
    hide Topology.Valid, Family, IsTree, Links, Proper, Admits;
    CachesFit(t.root, l1, l2);
    var first := t.Insert(l1);
    assert t.objects == {l1} && t.kids.Keys == {t.root, l1};
    var second := t.Insert(l2);
  }

  lemma CachesFit(root: Obj, l1: Obj, l2: Obj)
    requires l1.key == Key({0}, Kind(Cache, 1, "")) && l2.key == Key({0}, Kind(Cache, 2, ""))
    requires root.cofinite && root.key.cpus == {}
    ensures Proper(root, l1.key) && Proper(root, l2.key) && Admits(root, {}, l1) && Admits(root, {l1}, l2)
    ensures {} + {l1} == {l1}
  {
  }

  lemma CachesLinked(root: Obj, l1: Obj, l2: Obj, kids: Kids)
    requires l1.key == Key({0}, Kind(Cache, 1, "")) && l2.key == Key({0}, Kind(Cache, 2, ""))
    requires Family(root, {l1, l2}) && IsTree(root, {l1, l2}, kids) && Links(kids)
    ensures kids[root] == [l2] && kids[l2] == [l1] && kids[l1] == []
    ensures root.firstChild == l2 && l2.nextSibling == null && l2.firstChild == l1 && l1.nextSibling == null
    ensures l1.firstChild == null
  {
    hide Family, Children, Ordered;
    CacheChildren(root, l1, l2);
    CacheLists(root, l1, l2, kids);
  }

  lemma CacheLists(root: Obj, l1: Obj, l2: Obj, kids: Kids)
    requires IsTree(root, {l1, l2}, kids)
    requires Children(root, {l1, l2}, root) == {l2} && Children(root, {l1, l2}, l2) == {l1}
    requires Children(root, {l1, l2}, l1) == {}
    ensures kids[root] == [l2] && kids[l2] == [l1] && kids[l1] == []
  {
    hide Children, FirstCpu;
    assert Elements([l2]) == {l2} && Elements([l1]) == {l1};
    OrderedUnique(kids[root], [l2]);
    OrderedUnique(kids[l2], [l1]);
    NoElements(kids[l1]);
  }

  lemma CacheChildren(root: Obj, l1: Obj, l2: Obj)
    requires l1.key == Key({0}, Kind(Cache, 1, "")) && l2.key == Key({0}, Kind(Cache, 2, ""))
    requires Family(root, {l1, l2})
    ensures Children(root, {l1, l2}, root) == {l2} && Children(root, {l1, l2}, l2) == {l1}
    ensures Children(root, {l1, l2}, l1) == {}
  {
    assert Below(l1, l2) && !Below(l2, l1) && !Below(l1, l1) && !Below(l2, l2);
  }
}
