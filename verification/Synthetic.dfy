/** The synthetic topology generator (src/topology-synthetic.c): a machine described by the
    number of children at each level, built by inserting every object by its CPU set. */
module Synthetic {
  import opened ObjTypes
  import opened Hierarchy
  import opened Insertion
  import opened Discovery
  import opened Products

  // ---- Blocks of CPUs ----

  ghost function Interval(a: nat, b: nat): (cpus: set<nat>)
    ensures forall x :: x in cpus <==> a <= x < b
  {
    if b <= a then {} else Interval(a, b - 1) + {b - 1}
  }

  /** The CPUs of the `j`-th object of a level whose objects have `width` CPUs. */
  ghost function Block(width: nat, j: nat): set<nat> {
    Interval(Times(j, width), Times(j + 1, width))
  }

  /** `arity[l]` children below each object of level `l`; level 0 is the root, and the last
      level, of processing units, has none. */
  ghost predicate Description(arity: seq<nat>, kinds: seq<Kind>) {
    && |arity| == |kinds| >= 2
    && (forall l :: 0 <= l < |arity| - 1 ==> arity[l] >= 1)
    && arity[|arity| - 1] == 0
    && (forall l :: 0 <= l < |kinds| ==> Ordinary(kinds[l]))
  }

  /** An only child, which has the CPUs of its parent, is of a deeper kind. */
  ghost predicate Descending(arity: seq<nat>, kinds: seq<Kind>) {
    && |arity| == |kinds|
    && (forall l :: 1 <= l < |arity| - 1 && arity[l] == 1 ==> KindCmp(kinds[l + 1], kinds[l]) == Deeper)
  }

  /** In particular when every object below the root that has children has at least two. */
  lemma BranchingDescends(arity: seq<nat>, kinds: seq<Kind>)
    requires |arity| == |kinds| && forall l :: 1 <= l < |arity| - 1 ==> arity[l] >= 2
    ensures Descending(arity, kinds)
  {
  }

  /** The number of CPUs of an object of level `l`. */
  ghost function Width(arity: seq<nat>, l: nat): nat
    requires l < |arity|
    decreases |arity| - l
  {
    if l == |arity| - 1 then 1 else Times(arity[l], Width(arity, l + 1))
  }

  /** How many objects of level `m` are below one object of level `l`. */
  ghost function Count(arity: seq<nat>, l: nat, m: nat): nat
    requires l <= m < |arity|
    decreases m - l
  {
    if l == m then 1 else Times(arity[l], Count(arity, l + 1, m))
  }

  lemma {:induction false} WidthSplits(arity: seq<nat>, kinds: seq<Kind>, l: nat, m: nat)
    requires Description(arity, kinds) && l <= m < |arity|
    ensures Width(arity, l) == Times(Count(arity, l, m), Width(arity, m))
    ensures Count(arity, l, m) >= 1 && Width(arity, m) >= 1
    decreases |arity| - m, m - l
  {
    hide Times;
    if l < m {
      WidthSplits(arity, kinds, l + 1, m);
      TimesAssociates(arity[l], Count(arity, l + 1, m), Width(arity, m));
      TimesGrows(arity[l], Count(arity, l + 1, m));
    } else {
      TimesOne(Width(arity, m));
      if m < |arity| - 1 {
        WidthSplits(arity, kinds, m + 1, m + 1);
        TimesGrows(arity[m], Width(arity, m + 1));
      }
    }
  }

  /** A chain of only children descends. */
  lemma {:induction false} ChainDescends(arity: seq<nat>, kinds: seq<Kind>, l: nat, m: nat)
    requires Description(arity, kinds) && Descending(arity, kinds) && 1 <= l < m < |arity| && Count(arity, l, m) == 1
    ensures KindCmp(kinds[m], kinds[l]) == Deeper
    decreases m - l
  {
    hide Times, KindCmp;
    WidthSplits(arity, kinds, l + 1, m);
    TimesGrows(arity[l], Count(arity, l + 1, m));
    TimesGrows'(arity[l], Count(arity, l + 1, m));
    if l + 1 < m {
      ChainDescends(arity, kinds, l + 1, m);
      KindCmpTransitive(kinds[m], kinds[l + 1], kinds[l]);
    }
  }

  /** Two aligned blocks, one width a multiple of the other, are nested or disjoint. */
  /** CPU `x` is in block `x / width`. */
  lemma BlockMeans(width: nat, j: nat, x: nat)
    requires width >= 1
    ensures x in Block(width, j) <==> x / width == j
  {
    assert x == x / width * width + x % width;
    if x / width < j {
      assert (x / width + 1) * width <= j * width;
    } else if x / width > j {
      assert (j + 1) * width <= x / width * width;
    }
  }

  lemma BlocksNest(w: nat, c: nat, j: nat, k: nat)
    requires w >= 1 && c >= 1
    ensures k / c == j ==> Block(w, k) <= Block(Times(c, w), j)
    ensures k / c != j ==> Block(w, k) !! Block(Times(c, w), j)
    ensures Block(w, k) != {} && Block(Times(c, w), j) != {}
    ensures c >= 2 ==> !(Block(Times(c, w), j) <= Block(w, k))
  {
    hide Times;
    var q := k / c;
    BlockInside(w, c, k);
    TimesStep(k, w);
    TimesGrows'(c, w);
    TimesStep(j, Times(c, w));
    TimesStep(q, Times(c, w));
    assert Times(k, w) in Block(w, k);
    assert Times(j, Times(c, w)) in Block(Times(c, w), j);
    if q < j {
      TimesMono(q + 1, j, Times(c, w));
    } else if q > j {
      TimesMono(j + 1, q, Times(c, w));
    }
    if c >= 2 {
      TimesMono(2, c, w);
      TimesStep(1, w);
      TimesOne(w);
      assert Times(j, Times(c, w)) + w in Block(Times(c, w), j);
    }
  }

  lemma BlockInside(w: nat, c: nat, k: nat)
    requires w >= 1 && c >= 1
    ensures Times(k / c, Times(c, w)) <= Times(k, w)
    ensures Times(k + 1, w) <= Times(k / c + 1, Times(c, w))
  {
    var q, r := k / c, k % c;
    assert k == c * q + r;
    assert Times(c * q + r, w) == Times(q, Times(c, w)) + Times(r, w) by {
      assert (c * q + r) * w == q * (c * w) + r * w;
    }
    hide Times;
    TimesStep(q, Times(c, w));
    TimesStep(k, w);
    TimesStep(r, w);
    TimesMono(r + 1, c, w);
  }

  // ---- Positions ----

  /** The `j`-th object of level `m`. */
  datatype Position = At(level: nat, index: nat)

  ghost predicate Inside(arity: seq<nat>, p: Position, q: Position)
    requires p.level < |arity|
  {
    q.level < p.level && var c := Count(arity, q.level, p.level); c > 0 && p.index / c == q.index
  }

  /** Every object carries the CPUs, the kind and the index of its position. */
  ghost predicate Labelled(arity: seq<nat>, kinds: seq<Kind>, made: map<Position, Obj>) {
    && |arity| == |kinds|
    && (forall p :: p in made ==>
          && 1 <= p.level < |arity|
          && made[p].key == Key(Block(Width(arity, p.level), p.index), kinds[p.level])
          && made[p].osIndex == p.index)
  }

  ghost function Objects(made: map<Position, Obj>): set<Obj> {
    made.Values
  }

  /** Which of two positions contains the other, when only children descend. */
  lemma PositionsCompare(arity: seq<nat>, kinds: seq<Kind>, p: Position, q: Position)
    requires Description(arity, kinds) && Descending(arity, kinds) && p != q
    requires 1 <= p.level < |arity| && 1 <= q.level < |arity|
    ensures
      var a := Key(Block(Width(arity, p.level), p.index), kinds[p.level]);
      var b := Key(Block(Width(arity, q.level), q.index), kinds[q.level]);
      ObjCmp(a, b) ==
        if Inside(arity, p, q) then Included
        else if Inside(arity, q, p) then Contains
        else Different
  {
    if q.level <= p.level {
      LowerCompare(arity, kinds, p, q);
    } else {
      LowerCompare(arity, kinds, q, p);
      hide Width, Block;
      CmpConverse(Key(Block(Width(arity, q.level), q.index), kinds[q.level]),
                  Key(Block(Width(arity, p.level), p.index), kinds[p.level]));
    }
  }

  lemma LowerCompare(arity: seq<nat>, kinds: seq<Kind>, p: Position, q: Position)
    requires Description(arity, kinds) && Descending(arity, kinds) && p != q
    requires 1 <= q.level <= p.level < |arity|
    ensures
      var a := Key(Block(Width(arity, p.level), p.index), kinds[p.level]);
      var b := Key(Block(Width(arity, q.level), q.index), kinds[q.level]);
      ObjCmp(a, b) == (if Inside(arity, p, q) then Included else Different) && !Inside(arity, q, p)
  {
    hide KindCmp, Description, Descending, Width, Times;
    var c, w := Count(arity, q.level, p.level), Width(arity, p.level);
    WidthSplits(arity, kinds, q.level, p.level);
    BlocksNest(w, c, q.index, p.index);
    var a, b := Block(w, p.index), Block(Times(c, w), q.index);
    hide Block;
    assert a !! b ==> a * b == {} && a != b && !(a <= b) && !(b <= a);
    if c == 1 {
      TimesOne(w);
      if q.level < p.level {
        ChainDescends(arity, kinds, q.level, p.level);
      }
    }
  }

  lemma NextAdmitted(arity: seq<nat>, kinds: seq<Kind>, root: Obj, made: map<Position, Obj>, p: Position, o: Obj)
    requires Description(arity, kinds) && Descending(arity, kinds) && Labelled(arity, kinds, made)
    requires 1 <= p.level < |arity| && p !in made
    requires o.key == Key(Block(Width(arity, p.level), p.index), kinds[p.level])
    requires root.Covers(o.key.cpus)
    ensures Admits(root, Objects(made), o)
  {
    forall x | x in Objects(made)
      ensures Compatible(o.key, x.key)
    {
      var q :| q in made && made[q] == x;
      PositionsCompare(arity, kinds, p, q);
    }
  }

  lemma BlockNotEmpty(arity: seq<nat>, kinds: seq<Kind>, level: nat, index: nat)
    requires Description(arity, kinds) && level < |arity|
    ensures Block(Width(arity, level), index) != {}
  {
    WidthSplits(arity, kinds, level, level);
    BlocksNest(Width(arity, level), 1, index, index);
  }

  lemma ValuesAfterAdd(made: map<Position, Obj>, p: Position, o: Obj)
    requires p !in made
    ensures Objects(made[p := o]) == Objects(made) + {o}
  {
    forall x | x in Objects(made) + {o}
      ensures x in Objects(made[p := o])
    {
      if x in Objects(made) {
        var q :| q in made && made[q] == x;
        assert made[p := o][q] == x;
      } else {
        assert made[p := o][p] == x;
      }
    }
  }

  /** From level `from` on, exactly the first `id[l]` objects of each level exist, and they
      use up the CPUs below `cpu`. */
  ghost predicate Progress(arity: seq<nat>, id: seq<nat>, made: map<Position, Obj>, from: nat, cpu: nat) {
    && |id| == |arity|
    && (forall l :: from <= l < |arity| ==> Times(id[l], Width(arity, l)) == cpu)
    && (forall l, j :: from <= l < |arity| ==> (At(l, j) in made <==> l >= 1 && j < id[l]))
  }

  /** Nothing that existed has changed, and nothing has appeared above level `from`. */
  ghost predicate Extends(id: seq<nat>, made: map<Position, Obj>, id': seq<nat>, made': map<Position, Obj>, from: nat) {
    && |id'| == |id| && (forall l :: 0 <= l < from && l < |id| ==> id'[l] == id[l])
    && (forall p :: p in made ==> p in made' && made'[p] == made[p])
    && (forall p :: p in made' && p.level < from ==> p in made)
  }

  lemma ExtendsTwice(id: seq<nat>, made: map<Position, Obj>, id': seq<nat>, made': map<Position, Obj>,
                     id'': seq<nat>, made'': map<Position, Obj>, from: nat)
    requires Extends(id, made, id', made', from) && Extends(id', made', id'', made'', from)
    ensures Extends(id, made, id'', made'', from)
  {
  }

  lemma ObjectStarts(arity: seq<nat>, id: seq<nat>, made: map<Position, Obj>, level: nat, cpu: nat)
    requires Progress(arity, id, made, level, cpu) && level < |arity|
    ensures level < |id| && Progress(arity, id[level := id[level] + 1], made, level + 1, cpu)
  {
  }

  /** While the objects below it were built, the place of the object itself stayed free. */
  lemma PlaceFree(arity: seq<nat>, id: seq<nat>, made: map<Position, Obj>, id': seq<nat>, made': map<Position, Obj>,
                  level: nat, first: nat)
    requires 1 <= level < |arity| && Progress(arity, id, made, level, first)
    requires Extends(id[level := id[level] + 1], made, id', made', level + 1)
    ensures At(level, id[level]) !in made'
    ensures Interval(first, first + Width(arity, level)) == Block(Width(arity, level), id[level])
  {
    var w := Width(arity, level);
    TimesStep(id[level], w);
    assert At(level, id[level]) !in made;
  }

  lemma ObjectEnds(arity: seq<nat>, id: seq<nat>, made: map<Position, Obj>, id': seq<nat>, made': map<Position, Obj>,
                   level: nat, first: nat, o: Obj)
    requires 1 <= level < |arity| && Progress(arity, id, made, level, first)
    requires Extends(id[level := id[level] + 1], made, id', made', level + 1)
    requires Progress(arity, id', made', level + 1, first + Width(arity, level))
    ensures Progress(arity, id', made'[At(level, id[level]) := o], level, first + Width(arity, level))
    ensures Extends(id, made, id', made'[At(level, id[level]) := o], level)
  {
    var made'' := made'[At(level, id[level]) := o];
    PlaceFree(arity, id, made, id', made', level, first);
    assert id'[level] == id[level] + 1;
    forall j
      ensures At(level, j) in made'' <==> j < id'[level]
    {
      assert At(level, j) in made' <==> At(level, j) in made;
    }
    var w := Width(arity, level);
    TimesStep(id[level], w);
  }

  lemma LeafObject(arity: seq<nat>, kinds: seq<Kind>, id: seq<nat>, made: map<Position, Obj>, level: nat, cpu: nat)
    requires Description(arity, kinds) && 1 <= level < |arity| && arity[level] == 0
    requires Progress(arity, id, made, level + 1, cpu)
    ensures level + 1 == |arity| && Width(arity, level) == 1 && Interval(cpu, cpu + 1) == {cpu}
    ensures Progress(arity, id, made, level + 1, cpu + 1)
  {
  }

  lemma InnerObject(arity: seq<nat>, kinds: seq<Kind>, level: nat)
    requires Description(arity, kinds) && 1 <= level < |arity| && arity[level] != 0
    ensures level + 1 < |arity| && Width(arity, level) == Times(arity[level], Width(arity, level + 1))
  {
  }

  lemma IntervalGrows(first: nat, i: nat, w: nat)
    ensures first + Times(i + 1, w) == (first + Times(i, w)) + w
    ensures Interval(first, first + Times(i, w)) + Interval(first + Times(i, w), first + Times(i, w) + w)
            == Interval(first, first + Times(i + 1, w))
  {
    TimesStep(i, w);
    hide Times;
  }

  // ---- The generator ----

  /** The objects made so far and the topology they were inserted into. */
  ghost predicate Generated(t: Topology, arity: seq<nat>, kinds: seq<Kind>, made: map<Position, Obj>)
    reads t
  {
    && t.root.cofinite && t.root.key.cpus == {} && t.root !in Objects(made)
    && Description(arity, kinds) && Labelled(arity, kinds, made)
    && t.objects <= Objects(made)
    && (Descending(arity, kinds) ==> t.objects == Objects(made))
  }

  lemma GeneratedGrows(root: Obj, arity: seq<nat>, kinds: seq<Kind>, made: map<Position, Obj>, p: Position, o: Obj)
    requires Description(arity, kinds) && Labelled(arity, kinds, made)
    requires root.cofinite && root.key.cpus == {} && 1 <= p.level < |arity| && p !in made
    requires o.key == Key(Block(Width(arity, p.level), p.index), kinds[p.level]) && o.osIndex == p.index
    ensures Proper(root, o.key) && (Descending(arity, kinds) ==> Admits(root, Objects(made), o))
    ensures Labelled(arity, kinds, made[p := o]) && Objects(made[p := o]) == Objects(made) + {o}
  {
    BlockNotEmpty(arity, kinds, p.level, p.index);
    if Descending(arity, kinds) {
      NextAdmitted(arity, kinds, root, made, p, o);
    }
    ValuesAfterAdd(made, p, o);
  }

  lemma NothingYet(t: Topology, arity: seq<nat>, kinds: seq<Kind>, id: seq<nat>, made: map<Position, Obj>,
                   level: nat, cpu: nat)
    requires Generated(t, arity, kinds, made)
    ensures Description(arity, kinds) && Extends(id, made, id, made, level + 1) && Interval(cpu, cpu) == {}
  {
  }

  /** Create the object at one position and insert it. */
  method Add(t: Topology, arity: seq<nat>, kinds: seq<Kind>, level: nat, index: nat, cpus: set<nat>,
             ghost made: map<Position, Obj>) returns (ghost o: Obj)
    requires t.Valid() && Generated(t, arity, kinds, made)
    requires 1 <= level < |arity| && At(level, index) !in made
    requires cpus == Block(Width(arity, level), index)
    modifies t, t.kids.Keys
    ensures t.Valid() && (forall x :: x in t.kids.Keys ==> x in old(t.kids.Keys) || fresh(x))
    ensures Generated(t, arity, kinds, made[At(level, index) := o])
  {
    hide Topology.Valid, Generated, Admits, Descending, Description, Labelled, Proper, Block, Width;
    GeneratedFits(t, arity, kinds, made);
    var obj := new Obj(Key(cpus, kinds[level]), false, index);
    GeneratedGrows(t.root, arity, kinds, made, At(level, index), obj);
    ghost var before := t.objects;
    var ok := t.Insert(obj);
    o := obj;
    GeneratedMore(t, arity, kinds, made, At(level, index), obj, before);
  }

  lemma GeneratedFits(t: Topology, arity: seq<nat>, kinds: seq<Kind>, made: map<Position, Obj>)
    requires Generated(t, arity, kinds, made)
    ensures t.root.cofinite && t.root.key.cpus == {} && t.root !in Objects(made) && |arity| == |kinds|
    ensures Description(arity, kinds) && Labelled(arity, kinds, made) && t.objects <= Objects(made)
    ensures Descending(arity, kinds) ==> t.objects == Objects(made)
  {
  }

  /** Whether the new object was accepted or not. */
  lemma GeneratedMore(t: Topology, arity: seq<nat>, kinds: seq<Kind>, made: map<Position, Obj>, p: Position, o: Obj,
                      before: set<Obj>)
    requires t.root.cofinite && t.root.key.cpus == {} && t.root !in Objects(made) && o != t.root
    requires Description(arity, kinds) && Labelled(arity, kinds, made[p := o])
    requires before <= Objects(made) && Objects(made[p := o]) == Objects(made) + {o}
    requires t.objects == before || t.objects == before + {o}
    requires Descending(arity, kinds) ==> t.objects == before + {o} && before == Objects(made)
    ensures Generated(t, arity, kinds, made[p := o])
  {
    hide Description, Labelled, Descending;
  }

  /** `hwloc__look_synthetic`: the next object of level `level`, with everything below it.
      `id` holds the next index of each level. */
  method Look(t: Topology, arity: seq<nat>, kinds: seq<Kind>, level: nat, firstCpu: nat, id: seq<nat>,
              ghost made: map<Position, Obj>)
    returns (next: nat, cpus: set<nat>, id': seq<nat>, ghost made': map<Position, Obj>)
    requires t.Valid() && Generated(t, arity, kinds, made)
    requires 1 <= level < |arity| && Progress(arity, id, made, level, firstCpu)
    modifies t, t.kids.Keys
    ensures t.Valid() && (forall x :: x in t.kids.Keys ==> x in old(t.kids.Keys) || fresh(x))
        && Generated(t, arity, kinds, made')
    ensures next == firstCpu + Width(arity, level) && cpus == Interval(firstCpu, next)
    ensures Progress(arity, id', made', level, next)
    ensures Extends(id, made, id', made', level)
    decreases |arity| - level, 1
  {
    hide Topology.Valid, Generated, Progress, Extends, Width, Block, Interval;
    ObjectStarts(arity, id, made, level, firstCpu);
    var index := id[level];
    id' := id[level := index + 1];
    next, cpus, id', made' := LookBelow(t, arity, kinds, level, firstCpu, id', made);
    PlaceFree(arity, id, made, id', made', level, firstCpu);
    ghost var o := Add(t, arity, kinds, level, index, cpus, made');
    ObjectEnds(arity, id, made, id', made', level, firstCpu, o);
    made' := made'[At(level, index) := o];
  }

  /** The CPUs of that object: its own, or those of its children one after the other. */
  method LookBelow(t: Topology, arity: seq<nat>, kinds: seq<Kind>, level: nat, firstCpu: nat, id: seq<nat>,
                   ghost made: map<Position, Obj>)
    returns (next: nat, cpus: set<nat>, id': seq<nat>, ghost made': map<Position, Obj>)
    requires t.Valid() && Generated(t, arity, kinds, made)
    requires 1 <= level < |arity| && Progress(arity, id, made, level + 1, firstCpu)
    modifies t, t.kids.Keys
    ensures t.Valid() && (forall x :: x in t.kids.Keys ==> x in old(t.kids.Keys) || fresh(x))
        && Generated(t, arity, kinds, made')
    ensures next == firstCpu + Width(arity, level) && cpus == Interval(firstCpu, next)
    ensures Progress(arity, id', made', level + 1, next)
    ensures Extends(id, made, id', made', level + 1)
    decreases |arity| - level, 0
  {
    hide Topology.Valid, Generated, Progress, Extends, Width, Description;
    next, cpus, id', made' := firstCpu, {}, id, made;
    NothingYet(t, arity, kinds, id, made, level, firstCpu);
    if arity[level] == 0 {
      cpus := cpus + {next};
      next := next + 1;
      LeafObject(arity, kinds, id, made, level, firstCpu);
    } else {
      InnerObject(arity, kinds, level);
      for i := 0 to arity[level]
        invariant t.Valid() && (forall x :: x in t.kids.Keys ==> x in old(t.kids.Keys) || fresh(x))
            && Generated(t, arity, kinds, made')
        invariant next == firstCpu + Times(i, Width(arity, level + 1)) && cpus == Interval(firstCpu, next)
        invariant Progress(arity, id', made', level + 1, next)
        invariant Extends(id, made, id', made', level + 1)
      {
        var below;
        ghost var idBefore, madeBefore := id', made';
        next, below, id', made' := Look(t, arity, kinds, level + 1, next, id', made');
        cpus := cpus + below;
        ExtendsTwice(id, made, idBefore, madeBefore, id', made', level + 1);
        IntervalGrows(firstCpu, i, Width(arity, level + 1));
      }
    }
  }

  /** Exactly the positions of the machine: at each level, as many objects as the arities above
      it multiply to. */
  ghost predicate Full(arity: seq<nat>, made: map<Position, Obj>) {
    forall p :: p in made <==> 1 <= p.level < |arity| && p.index < Count(arity, 0, p.level)
  }

  /** The index of the first child of the object at `p`. */
  ghost function FirstChild(arity: seq<nat>, p: Position): nat
    requires p.level < |arity|
  {
    Times(p.index, arity[p.level])
  }

  ghost predicate RunMade(made: map<Position, Obj>, level: nat, from: nat, n: nat) {
    forall t: nat :: from <= t < from + n ==> At(level, t) in made
  }

  /** `q` lists `n` consecutive objects of one level. */
  ghost predicate IsRun(made: map<Position, Obj>, q: seq<Obj>, level: nat, from: nat, n: nat) {
    && |q| == n && RunMade(made, level, from, n)
    && (forall t {:trigger q[t]} :: 0 <= t < n ==> q[t] == made[At(level, from + t)])
  }

  /** The children of every object, and of the root, are consecutive runs of the next level. */
  ghost predicate Complete(root: Obj, arity: seq<nat>, made: map<Position, Obj>, kids: Kids) {
    && kids.Keys == Objects(made) + {root}
    && |arity| > 0 && IsRun(made, kids[root], 1, 0, arity[0])
    && (forall p :: p in made ==>
          && p.level < |arity| && made[p] in kids
          && IsRun(made, kids[made[p]], p.level + 1, FirstChild(arity, p), arity[p.level]))
  }

  lemma AllMade(arity: seq<nat>, kinds: seq<Kind>, id: seq<nat>, made: map<Position, Obj>)
    requires Description(arity, kinds) && Labelled(arity, kinds, made)
    requires Progress(arity, id, made, 1, Width(arity, 0))
    ensures Full(arity, made)
  {
    forall p: Position
      ensures p in made <==> 1 <= p.level < |arity| && p.index < Count(arity, 0, p.level)
    {
      if 1 <= p.level < |arity| {
        WidthSplits(arity, kinds, 0, p.level);
        TimesCancels(id[p.level], Count(arity, 0, p.level), Width(arity, p.level));
        assert p == At(p.level, p.index);
      }
    }
  }

  /** `hwloc_look_synthetic`: with any arities the objects are numbered in order and cover
      consecutive blocks of CPUs; none is turned away and the tree is the complete one exactly when
      every only child is of a deeper kind than its parent. */
  method LookSynthetic(t: Topology, arity: seq<nat>, kinds: seq<Kind>) returns (ghost made: map<Position, Obj>)
    requires t.Valid() && t.objects == {} && t.root.cofinite && t.root.key.cpus == {}
    requires Description(arity, kinds)
    modifies t, t.kids.Keys
    ensures t.Valid()
    ensures Full(arity, made) && Labelled(arity, kinds, made) && t.objects <= Objects(made)
    ensures t.objects == Objects(made) && Complete(t.root, arity, made, t.kids) <==> Descending(arity, kinds)
  {
    hide Topology.Valid, Generated, Progress, Width, Description, Descending, Complete, Full, Labelled, Objects, Times;
    var id: seq<nat> := seq(|arity|, _ => 0);
    var firstCpu := 0;
    made := map[];
    NothingMade(t, arity, kinds, id);
    for i := 0 to arity[0]
      invariant t.Valid() && (forall x :: x in t.kids.Keys ==> x in old(t.kids.Keys) || fresh(x))
          && Generated(t, arity, kinds, made)
      invariant firstCpu == Times(i, Width(arity, 1)) && Progress(arity, id, made, 1, firstCpu)
    {
      var cpus;
      firstCpu, cpus, id, made := Look(t, arity, kinds, 1, firstCpu, id, made);
      TimesStep(i, Width(arity, 1));
    }
    AllGenerated(t, arity, kinds, id, made);
  }

  lemma AllGenerated(t: Topology, arity: seq<nat>, kinds: seq<Kind>, id: seq<nat>, made: map<Position, Obj>)
    requires t.Valid() && Generated(t, arity, kinds, made)
    requires Progress(arity, id, made, 1, Width(arity, 0))
    ensures Full(arity, made) && Labelled(arity, kinds, made) && t.objects <= Objects(made)
    ensures t.objects == Objects(made) && Complete(t.root, arity, made, t.kids) <==> Descending(arity, kinds)
  {
    AllMade(arity, kinds, id, made);
    GeneratedFits(t, arity, kinds, made);
    hide Descending, Complete, Full, Labelled, Description, Objects, Family, IsTree, Links;
    if Descending(arity, kinds) {
      BuildsCompleteTree(t.root, arity, kinds, made, t.kids);
    } else if t.objects == Objects(made) && Complete(t.root, arity, made, t.kids) {
      CompleteDescends(t.root, arity, kinds, made, t.kids);
    }
  }

  /** In the complete tree, an only child is below its parent, and so of a deeper kind. */
  lemma CompleteDescends(root: Obj, arity: seq<nat>, kinds: seq<Kind>, made: map<Position, Obj>, kids: Kids)
    requires Description(arity, kinds) && Labelled(arity, kinds, made) && Full(arity, made)
    requires root !in Objects(made) && IsTree(root, Objects(made), kids) && Complete(root, arity, made, kids)
    ensures Descending(arity, kinds)
  {
    hide IsTree, Complete, Full, Labelled, KindCmp;
    forall l | 1 <= l < |arity| - 1 && arity[l] == 1
      ensures KindCmp(kinds[l + 1], kinds[l]) == Deeper
    {
      OnlyChildIsDeeper(root, arity, kinds, made, kids, l);
    }
  }

  lemma OnlyChildIsDeeper(root: Obj, arity: seq<nat>, kinds: seq<Kind>, made: map<Position, Obj>, kids: Kids, l: nat)
    requires Description(arity, kinds) && Labelled(arity, kinds, made) && Full(arity, made)
    requires root !in Objects(made) && IsTree(root, Objects(made), kids) && Complete(root, arity, made, kids)
    requires 1 <= l < |arity| - 1 && arity[l] == 1
    ensures KindCmp(kinds[l + 1], kinds[l]) == Deeper
  {
    var p, q := At(l, 0), At(l + 1, 0);
    WidthSplits(arity, kinds, 0, l);
    assert p in made && made[p] in Objects(made);
    FirstChildOfFirst(arity, p);
    hide Full, Description, KindCmp, Width, Block, FirstChild;
    var child := kids[made[p]][0];
    assert child == made[q];
    ListOfChildren(root, Objects(made), kids, made[p]);
    assert child in Elements(kids[made[p]]);
    assert Below(child, made[p]);
    OnlyChildWidth(arity, l);
  }

  lemma FirstChildOfFirst(arity: seq<nat>, p: Position)
    requires p.level < |arity| && p.index == 0
    ensures FirstChild(arity, p) == 0
  {
  }

  lemma OnlyChildWidth(arity: seq<nat>, l: nat)
    requires l + 1 < |arity| && arity[l] == 1
    ensures Width(arity, l) == Width(arity, l + 1)
  {
    TimesOne(Width(arity, l + 1));
  }

  lemma NothingMade(t: Topology, arity: seq<nat>, kinds: seq<Kind>, id: seq<nat>)
    requires t.objects == {} && t.root.cofinite && t.root.key.cpus == {} && Description(arity, kinds)
    requires |id| == |arity| && forall l :: 0 <= l < |id| ==> id[l] == 0
    ensures Generated(t, arity, kinds, map[]) && Progress(arity, id, map[], 1, 0)
    ensures |arity| >= 2 && Times(0, Width(arity, 1)) == 0 && Width(arity, 0) == Times(arity[0], Width(arity, 1))
  {
  }

  // ---- The complete tree is the tree of the blocks ----

  lemma {:induction false} CountSplitsLast(arity: seq<nat>, l: nat, m: nat)
    requires l < m < |arity|
    ensures Count(arity, l, m) == Times(Count(arity, l, m - 1), arity[m - 1])
    decreases m - l
  {
    hide Times;
    if l + 1 < m {
      CountSplitsLast(arity, l + 1, m);
      TimesAssociates(arity[l], Count(arity, l + 1, m - 1), arity[m - 1]);
    } else {
      assert Count(arity, m, m) == 1 && Count(arity, l, l) == 1;
      TimesOne(arity[l]);
    }
  }

  lemma Injective(arity: seq<nat>, kinds: seq<Kind>, made: map<Position, Obj>, p: Position, q: Position)
    requires Description(arity, kinds) && Descending(arity, kinds) && Labelled(arity, kinds, made)
    requires p in made && q in made && made[p] == made[q]
    ensures p == q
  {
    if p != q {
      PositionsCompare(arity, kinds, p, q);
      KindCmpReverses(made[p].key.kind, made[p].key.kind);
      BlockNotEmpty(arity, kinds, p.level, p.index);
    }
  }

  ghost function ParentOf(root: Obj, arity: seq<nat>, made: map<Position, Obj>, p: Position): Obj
    requires 1 <= p.level < |arity|
  {
    if p.level == 1 || arity[p.level - 1] == 0 then root
    else
      var q := At(p.level - 1, p.index / arity[p.level - 1]);
      if q in made then made[q] else root
  }

  lemma ParentIsBlock(root: Obj, arity: seq<nat>, kinds: seq<Kind>, made: map<Position, Obj>, p: Position)
    requires Description(arity, kinds) && Descending(arity, kinds) && Labelled(arity, kinds, made) && Full(arity, made)
    requires root !in Objects(made) && p in made
    ensures 1 <= p.level < |arity|
    ensures IsParent(root, Objects(made), ParentOf(root, arity, made, p), made[p])
  {
    if p.level > 1 {
      BelowParent(arity, kinds, made, p);
      var up := At(p.level - 1, p.index / arity[p.level - 1]);
      assert made[up] in Objects(made);
      hide Description, Descending, Labelled, Full, ObjCmp, Width, Block, Count;
      forall x | x in Objects(made) && Below(made[p], x)
        ensures x == made[up] || Below(made[up], x)
      {
        var q :| q in made && made[q] == x;
        UpperOf(arity, kinds, made, p, q);
      }
    } else {
      hide ObjCmp, Width, Block, Full;
      forall x | x in Objects(made)
        ensures !Below(made[p], x)
      {
        var q :| q in made && made[q] == x;
        TopIsBelowNothing(arity, kinds, made, p, q);
      }
    }
  }

  lemma TopIsBelowNothing(arity: seq<nat>, kinds: seq<Kind>, made: map<Position, Obj>, p: Position, q: Position)
    requires Description(arity, kinds) && Descending(arity, kinds) && Labelled(arity, kinds, made)
    requires p in made && q in made && p.level == 1
    ensures !Below(made[p], made[q])
  {
    if q == p {
      KindCmpReverses(made[p].key.kind, made[p].key.kind);
    } else {
      PositionsCompare(arity, kinds, p, q);
    }
  }

  lemma BelowParent(arity: seq<nat>, kinds: seq<Kind>, made: map<Position, Obj>, p: Position)
    requires Description(arity, kinds) && Descending(arity, kinds) && Labelled(arity, kinds, made) && Full(arity, made)
    requires p in made && p.level > 1
    ensures p.level < |arity| && arity[p.level - 1] >= 1
    ensures var up := At(p.level - 1, p.index / arity[p.level - 1]); up in made && Below(made[p], made[up])
  {
    ParentPosition(arity, kinds, made, p);
    var up := At(p.level - 1, p.index / arity[p.level - 1]);
    CountSplitsLast(arity, p.level - 1, p.level);
    assert Count(arity, p.level - 1, p.level - 1) == 1;
    PositionsCompare(arity, kinds, p, up);
  }

  lemma UpperOf(arity: seq<nat>, kinds: seq<Kind>, made: map<Position, Obj>, p: Position, q: Position)
    requires Description(arity, kinds) && Descending(arity, kinds) && Labelled(arity, kinds, made)
    requires p in made && q in made && p.level > 1 && Below(made[p], made[q])
    requires At(p.level - 1, p.index / arity[p.level - 1]) in made
    ensures var up := At(p.level - 1, p.index / arity[p.level - 1]); q == up || Below(made[up], made[q])
  {
    hide Below, Width, Block;
    var a := arity[p.level - 1];
    var up := At(p.level - 1, p.index / a);
    BelowIsInside(arity, kinds, made, p, q);
    CountSplitsLast(arity, q.level, p.level);
    if q.level < p.level - 1 {
      WidthSplits(arity, kinds, q.level, p.level - 1);
      DivideTwice(p.index, a, Count(arity, q.level, p.level - 1));
      BelowIsInside(arity, kinds, made, up, q);
    }
  }

  lemma BelowIsInside(arity: seq<nat>, kinds: seq<Kind>, made: map<Position, Obj>, p: Position, q: Position)
    requires Description(arity, kinds) && Descending(arity, kinds) && Labelled(arity, kinds, made)
    requires p in made && q in made
    ensures p.level < |arity| && q.level < |arity| && (Below(made[p], made[q]) <==> Inside(arity, p, q))
  {
    hide Descending, Width, Block, Count;
    if q == p {
      KindCmpReverses(made[p].key.kind, made[p].key.kind);
    } else {
      PositionsCompare(arity, kinds, p, q);
    }
  }

  lemma FirstOfBlock(arity: seq<nat>, kinds: seq<Kind>, made: map<Position, Obj>, p: Position)
    requires Description(arity, kinds) && Labelled(arity, kinds, made) && p in made
    ensures FirstCpu(made[p]) == Times(p.index, Width(arity, p.level))
  {
    var w := Width(arity, p.level);
    WidthSplits(arity, kinds, p.level, p.level);
    TimesStep(p.index, w);
    assert Times(p.index, w) in made[p].key.cpus;
  }

  /** `n` consecutive objects of one level. */
  ghost function Run(made: map<Position, Obj>, level: nat, from: nat, n: nat): (q: seq<Obj>)
    requires RunMade(made, level, from, n)
    ensures IsRun(made, q, level, from, n)
  {
    if n == 0 then [] else Run(made, level, from, n - 1) + [made[At(level, from + n - 1)]]
  }

  lemma FirstOfRun(arity: seq<nat>, kinds: seq<Kind>, made: map<Position, Obj>, q: seq<Obj>,
                   level: nat, from: nat, n: nat, i: nat)
    requires Description(arity, kinds) && Labelled(arity, kinds, made) && IsRun(made, q, level, from, n) && i < n
    ensures 1 <= level < |arity| && FirstCpu(q[i]) == Times(from + i, Width(arity, level))
  {
    assert At(level, from + i) in made && q[i] == made[At(level, from + i)];
    FirstOfBlock(arity, kinds, made, At(level, from + i));
  }

  lemma RunOrdered(arity: seq<nat>, kinds: seq<Kind>, made: map<Position, Obj>, q: seq<Obj>,
                   level: nat, from: nat, n: nat)
    requires Description(arity, kinds) && Labelled(arity, kinds, made) && IsRun(made, q, level, from, n)
    ensures Ordered(q)
  {
    assert |q| == n;
    hide Labelled, IsRun, Width, FirstCpu, Description;
    forall i, j | 0 <= i < j < |q|
      ensures FirstCpu(q[i]) < FirstCpu(q[j])
    {
      FirstOfRun(arity, kinds, made, q, level, from, n, i);
      FirstOfRun(arity, kinds, made, q, level, from, n, j);
      var w := Width(arity, level);
      WidthSplits(arity, kinds, level, level);
      TimesStep(from + i, w);
      TimesMono(from + i + 1, from + j, w);
    }
  }

  /** The positions whose parent is `p`. */
  ghost predicate ParentsAre(root: Obj, arity: seq<nat>, made: map<Position, Obj>, p: Obj,
                             level: nat, from: nat, n: nat) {
    forall q :: q in made && 1 <= q.level < |arity| ==>
      (ParentOf(root, arity, made, q) == p <==> q.level == level && from <= q.index < from + n)
  }

  lemma ChildInRun(root: Obj, arity: seq<nat>, kinds: seq<Kind>, made: map<Position, Obj>,
                   p: Obj, level: nat, from: nat, n: nat, run: seq<Obj>, x: Obj)
    requires Description(arity, kinds) && Descending(arity, kinds) && Labelled(arity, kinds, made) && Full(arity, made)
    requires Family(root, Objects(made)) && p in Objects(made) + {root}
    requires IsRun(made, run, level, from, n) && ParentsAre(root, arity, made, p, level, from, n)
    ensures x in run <==> x in Children(root, Objects(made), p)
  {
    assert root !in Objects(made);
    hide IsParent, Family, Descending, Width, Block, ParentOf, Count, Labelled;
    Levels(arity, made);
    if x in run {
      var t :| 0 <= t < n && run[t] == x;
      var q := At(level, from + t);
      assert q in made && made[q] == x;
      ParentIsBlock(root, arity, kinds, made, q);
    }
    if x in Children(root, Objects(made), p) {
      var q :| q in made && made[q] == x;
      ParentIsBlock(root, arity, kinds, made, q);
      ParentKnown(root, arity, made, q);
      OneParent(root, Objects(made), p, ParentOf(root, arity, made, q), x);
      assert run[q.index - from] == made[At(level, from + (q.index - from))];
      assert q == At(level, q.index);
    }
  }

  lemma Levels(arity: seq<nat>, made: map<Position, Obj>)
    requires Full(arity, made)
    ensures forall q :: q in made ==> 1 <= q.level < |arity|
  {
  }

  lemma ParentKnown(root: Obj, arity: seq<nat>, made: map<Position, Obj>, p: Position)
    requires 1 <= p.level < |arity|
    ensures ParentOf(root, arity, made, p) in Objects(made) + {root}
  {
  }

  /** The children of an object are the next run, provided that their parents say so. */
  lemma RunIsChildren(root: Obj, arity: seq<nat>, kinds: seq<Kind>, made: map<Position, Obj>, kids: Kids,
                      p: Obj, level: nat, from: nat, n: nat)
    requires Description(arity, kinds) && Descending(arity, kinds) && Labelled(arity, kinds, made) && Full(arity, made)
    requires Family(root, Objects(made)) && IsTree(root, Objects(made), kids) && p in kids
    requires RunMade(made, level, from, n)
    requires ParentsAre(root, arity, made, p, level, from, n)
    ensures IsRun(made, kids[p], level, from, n)
  {
    hide Description, Descending, Labelled, Full, Family, IsTree, ParentsAre, IsRun, Children, Run, Objects, Ordered;
    var run := Run(made, level, from, n);
    RunOrdered(arity, kinds, made, run, level, from, n);
    ListOfChildren(root, Objects(made), kids, p);
    forall x
      ensures x in Elements(run) <==> x in Children(root, Objects(made), p)
    {
      ChildInRun(root, arity, kinds, made, p, level, from, n, run, x);
    }
    assert Elements(run) == Children(root, Objects(made), p);
    OrderedUnique(kids[p], run);
  }

  lemma ListOfChildren(root: Obj, s: set<Obj>, kids: Kids, p: Obj)
    requires IsTree(root, s, kids) && p in kids
    ensures p in s + {root} && Ordered(kids[p]) && Elements(kids[p]) == Children(root, s, p)
  {
  }

  lemma BuildsCompleteTree(root: Obj, arity: seq<nat>, kinds: seq<Kind>, made: map<Position, Obj>, kids: Kids)
    requires Description(arity, kinds) && Descending(arity, kinds) && Labelled(arity, kinds, made) && Full(arity, made)
    requires Family(root, Objects(made)) && IsTree(root, Objects(made), kids)
    ensures Complete(root, arity, made, kids)
  {
    KeysOfTree(root, Objects(made), kids);
    Levels(arity, made);
    assert |arity| > 0;
    assert forall p :: p in made ==> made[p] in Objects(made);
    hide Description, Descending, Labelled, Full, Family, IsTree, IsRun, Objects, FirstChild;
    RootRun(root, arity, kinds, made, kids);
    forall p | p in made
      ensures IsRun(made, kids[made[p]], p.level + 1, FirstChild(arity, p), arity[p.level])
    {
      ObjectRun(root, arity, kinds, made, kids, p);
    }
  }

  lemma RootRun(root: Obj, arity: seq<nat>, kinds: seq<Kind>, made: map<Position, Obj>, kids: Kids)
    requires Description(arity, kinds) && Descending(arity, kinds) && Labelled(arity, kinds, made) && Full(arity, made)
    requires Family(root, Objects(made)) && IsTree(root, Objects(made), kids)
    ensures IsRun(made, kids[root], 1, 0, arity[0])
  {
    hide IsParent, IsTree, Width, Block, Descending, IsRun;
    CountSplitsLast(arity, 0, 1);
    assert Count(arity, 0, 0) == 1;
    forall q | q in made
      ensures ParentOf(root, arity, made, q) == root <==> q.level == 1 && 0 <= q.index < 0 + arity[0]
    {
      if q.level > 1 {
        ParentPosition(arity, kinds, made, q);
      }
    }
    assert RunMade(made, 1, 0, arity[0]);
    assert root in kids by { KeysOfTree(root, Objects(made), kids); }
    RunIsChildren(root, arity, kinds, made, kids, root, 1, 0, arity[0]);
  }

  lemma RootApart(root: Obj, s: set<Obj>)
    requires Family(root, s)
    ensures root !in s
  {
  }

  /** The position above `q` exists. */
  lemma ParentPosition(arity: seq<nat>, kinds: seq<Kind>, made: map<Position, Obj>, q: Position)
    requires Description(arity, kinds) && Full(arity, made) && q in made && q.level > 1
    ensures arity[q.level - 1] >= 1 && At(q.level - 1, q.index / arity[q.level - 1]) in made
  {
    CountSplitsLast(arity, 0, q.level);
    DivideBound(q.index, arity[q.level - 1], Count(arity, 0, q.level - 1));
  }

  ghost predicate ChildPosition(arity: seq<nat>, p: Position, q: Position)
    requires p.level < |arity|
  {
    q.level == p.level + 1 && FirstChild(arity, p) <= q.index < FirstChild(arity, p) + arity[p.level]
  }

  lemma ChildPositionDivides(arity: seq<nat>, p: Position, q: Position)
    requires p.level < |arity| && 1 < q.level <= |arity| && arity[q.level - 1] >= 1
    ensures ChildPosition(arity, p, q) <==> At(q.level - 1, q.index / arity[q.level - 1]) == p
  {
    if q.level == p.level + 1 {
      var a := arity[p.level];
      if ChildPosition(arity, p, q) {
        DivideUnique(q.index, a, p.index, q.index - Times(p.index, a));
      } else {
        assert q.index == Times(q.index / a, a) + q.index % a;
      }
    }
  }

  lemma ObjectRun(root: Obj, arity: seq<nat>, kinds: seq<Kind>, made: map<Position, Obj>, kids: Kids, p: Position)
    requires p in made && p.level < |arity| && made[p] in kids
    requires Description(arity, kinds) && Descending(arity, kinds) && Labelled(arity, kinds, made) && Full(arity, made)
    requires Family(root, Objects(made)) && IsTree(root, Objects(made), kids)
    ensures IsRun(made, kids[made[p]], p.level + 1, FirstChild(arity, p), arity[p.level])
  {
    hide IsTree, Descending, IsRun, Family, Full, Description, Labelled, ParentOf, Objects, FirstChild, ParentsAre;
    RootApart(root, Objects(made));
    ChildrenMade(arity, kinds, made, p);
    ParentsOfRun(root, arity, kinds, made, p);
    RunIsChildren(root, arity, kinds, made, kids, made[p], p.level + 1, FirstChild(arity, p), arity[p.level]);
  }

  lemma ChildrenMade(arity: seq<nat>, kinds: seq<Kind>, made: map<Position, Obj>, p: Position)
    requires Description(arity, kinds) && Full(arity, made) && p in made && p.level < |arity|
    ensures RunMade(made, p.level + 1, FirstChild(arity, p), arity[p.level])
  {
    hide Full, FirstChild;
    var level, from, n := p.level + 1, FirstChild(arity, p), arity[p.level];
    forall t: nat | from <= t < from + n
      ensures At(level, t) in made
    {
      ChildMade(arity, kinds, made, p, t);
    }
  }

  lemma ParentsOfRun(root: Obj, arity: seq<nat>, kinds: seq<Kind>, made: map<Position, Obj>, p: Position)
    requires p in made && p.level < |arity| && root !in Objects(made)
    requires Description(arity, kinds) && Descending(arity, kinds) && Labelled(arity, kinds, made) && Full(arity, made)
    ensures ParentsAre(root, arity, made, made[p], p.level + 1, FirstChild(arity, p), arity[p.level])
  {
    hide Descending, Full, Description, Labelled, ParentOf, Objects, FirstChild;
    forall q | q in made && 1 <= q.level < |arity|
      ensures ParentOf(root, arity, made, q) == made[p] <==> ChildPosition(arity, p, q)
    {
      ChildOf(root, arity, kinds, made, p, q);
    }
  }

  lemma ChildMade(arity: seq<nat>, kinds: seq<Kind>, made: map<Position, Obj>, p: Position, t: nat)
    requires Description(arity, kinds) && Full(arity, made) && p in made
    requires FirstChild(arity, p) <= t < FirstChild(arity, p) + arity[p.level]
    ensures At(p.level + 1, t) in made
  {
    ChildPositionDivides(arity, p, At(p.level + 1, t));
    CountSplitsLast(arity, 0, p.level + 1);
    DivideBound(t, arity[p.level], Count(arity, 0, p.level));
  }

  lemma ChildOf(root: Obj, arity: seq<nat>, kinds: seq<Kind>, made: map<Position, Obj>, p: Position, q: Position)
    requires Description(arity, kinds) && Descending(arity, kinds) && Labelled(arity, kinds, made) && Full(arity, made)
    requires root !in Objects(made) && p in made && q in made
    ensures ParentOf(root, arity, made, q) == made[p] <==> ChildPosition(arity, p, q)
  {
    assert made[p] in Objects(made) && 1 <= q.level < |arity| && p.level < |arity|;
    hide Width, Block, Descending, Labelled;
    if q.level > 1 {
      ParentPosition(arity, kinds, made, q);
      ChildPositionDivides(arity, p, q);
      var up := At(q.level - 1, q.index / arity[q.level - 1]);
      if made[up] == made[p] {
        Injective(arity, kinds, made, up, p);
      }
    }
  }
}
