/** Building the levels (src/topology.c): arrays of objects that are counted, allocated, filled, and
    replaced by those of the next round. */
module LevelBuilder {
  import opened Collections
  import opened ObjTypes
  import opened Levels

  // ---- Filtering ----

  /** `hwloc_level_filter_object`: how many objects go in levels in the place of this one; they are
      copied when there is an array for them. */
  method FilterObject(out: array?<Tree>, at: nat, t: Tree) returns (nb: nat)
    requires out != null ==> at + |FilteredTree(t)| <= out.Length
    modifies out
    ensures nb == |FilteredTree(t)|
    ensures out != null ==> out[at..at + nb] == FilteredTree(t)
    ensures out != null ==> out[..at] == old(out[..at]) && out[at + nb..] == old(out[at + nb..])
    decreases t
  {
    if IsIo(t.obj.kind.typ) {
      return 0;
    }
    if t.obj.kind.typ != Misc {
      if out != null {
        out[at] := t;
      }
      return 1;
    }
    ghost var cs := t.children;
    nb := 0;
    ghost var before := if out != null then out[..] else [];
    assert cs[..|cs|] == cs;
    for i := 0 to |t.children|
      invariant nb == |Filtered(cs[..i])| <= |Filtered(cs)|
      invariant out != null ==> at + nb <= out.Length && out.Length == |before| && out[at..at + nb] == Filtered(cs[..i])
      invariant out != null ==> out[..at] == before[..at] && out[at + nb..] == before[at + nb..]
    {
      FilteredNext(cs, i);
      ghost var now := if out != null then out[..] else [];
      var more := FilterObject(out, at + nb, t.children[i]);
      if out != null {
        Filled(before, now, out[..], at, nb, more);
      }
      nb := nb + more;
    }
  }

  lemma FilteredNext(ts: seq<Tree>, i: nat)
    requires i < |ts|
    ensures Filtered(ts[..i + 1]) == Filtered(ts[..i]) + FilteredTree(ts[i])
    ensures |Filtered(ts[..i])| + |FilteredTree(ts[i])| <= |Filtered(ts)|
  {
    hide FilteredTree;
    FilteredJoined(ts[..i], [ts[i]]);
    assert ts[..i] + [ts[i]] == ts[..i + 1];
    FilteredJoined(ts[..i + 1], ts[i + 1..]);
    assert ts[..i + 1] + ts[i + 1..] == ts;
    assert [ts[i]][1..] == [] && FilteredTree(ts[i]) + [] == FilteredTree(ts[i]);
  }

  lemma {:induction false} FilteredJoined(a: seq<Tree>, b: seq<Tree>)
    ensures Filtered(a + b) == Filtered(a) + Filtered(b)
    decreases |a|
  {
    hide FilteredTree;
    if a == [] {
      assert a + b == b;
    } else {
      FilteredJoined(a[1..], b);
      assert (a + b)[1..] == a[1..] + b;
    }
  }

  /** A second piece, right after the first. */
  lemma Filled(before: seq<Tree>, now: seq<Tree>, after: seq<Tree>, at: nat, nb: nat, more: nat)
    requires |before| == |now| == |after| && at + nb + more <= |before|
    requires now[..at] == before[..at] && now[at + nb..] == before[at + nb..]
    requires after[..at + nb] == now[..at + nb] && after[at + nb + more..] == now[at + nb + more..]
    ensures after[at..at + nb + more] == now[at..at + nb] + after[at + nb..at + nb + more]
    ensures after[..at] == before[..at] && after[at + nb + more..] == before[at + nb + more..]
  {
    assert after[at..at + nb] == after[..at + nb][at..] == now[..at + nb][at..];
    assert after[..at] == after[..at + nb][..at] == now[..at + nb][..at];
    assert now[at + nb + more..] == now[at + nb..][more..] == before[at + nb..][more..];
  }

  /** What an array filters to, counted first and then copied. */
  method CopyFiltered(objs: array<Tree>) returns (r: array<Tree>)
    requires objs.Length > 0
    ensures r[..] == Filtered(objs[..]) && fresh(r)
  {
    hide Filtered;
    var nnew := CountFiltered(objs);
    ghost var ts := objs[..];
    assert ts[..objs.Length] == ts && ts[..0] == [];
    var filler := objs[0];
    r := new Tree[nnew](_ => filler);
    var at := 0;
    NothingFiltered();
    for j := 0 to objs.Length
      invariant at == |Filtered(ts[..j])| <= nnew && r[..at] == Filtered(ts[..j]) && objs[..] == ts
    {
      FilteredNext(ts, j);
      var nb := FilterObject(r, at, objs[j]);
      assert r[..at + nb] == r[..at] + r[at..at + nb];
      at := at + nb;
    }
    assert r[..at] == r[..];
  }

  method CountFiltered(objs: array<Tree>) returns (nnew: nat)
    ensures nnew == |Filtered(objs[..])|
  {
    hide Filtered;
    ghost var ts := objs[..];
    assert ts[..objs.Length] == ts && ts[..0] == [];
    nnew := 0;
    NothingFiltered();
    for j := 0 to objs.Length
      invariant nnew == |Filtered(ts[..j])|
    {
      FilteredNext(ts, j);
      var nb := FilterObject(null, 0, objs[j]);
      nnew := nnew + nb;
    }
  }

  lemma NothingFiltered()
    ensures Filtered([]) == []
  {
  }

  /** `hwloc_level_filter_objects`: the array as it is when there is nothing to filter, and otherwise
      a new one of exactly the counted size. */
  method FilterObjects(objs: array<Tree>) returns (r: array<Tree>)
    ensures r[..] == Filtered(objs[..])
    ensures r == objs || fresh(r)
  {
    var n := objs.Length;
    var i := 0;
    while i < n && Levelled(objs[i].obj.kind)
      invariant 0 <= i <= n && AllLevelled(objs[..i])
    {
      i := i + 1;
    }
    if i == n {
      assert objs[..i] == objs[..];
      FilteredAlready(objs[..]);
      return objs;
    }
    r := CopyFiltered(objs);
  }

  lemma {:induction false} FilteredAlready(ts: seq<Tree>)
    requires AllLevelled(ts)
    ensures Filtered(ts) == ts
    decreases |ts|
  {
    if ts != [] {
      assert Levelled(ts[0].obj.kind);
      FilteredAlready(ts[1..]);
      assert [ts[0]] + ts[1..] == ts;
    }
  }

  // ---- Choosing the top object ----

  /** `find_same_type`. */
  method FindSameType(root: Tree, k: Kind) returns (found: bool)
    ensures found == Below(root, k)
    decreases root
  {
    if SameType(root.obj.kind, k) {
      return true;
    }
    ghost var cs := root.children;
    for i := 0 to |root.children|
      invariant SomeBelow(cs, k) == SomeBelow(cs[i..], k)
    {
      var below := FindSameType(root.children[i], k);
      if below {
        return true;
      }
      assert cs[i..][1..] == cs[i + 1..];
    }
    return false;
  }

  /** The two loops that choose the top object. */
  method ChooseTop(objs: array<Tree>) returns (top: nat)
    requires objs.Length > 0
    ensures top == Top(objs[..])
  {
    ghost var ts := objs[..];
    var n := objs.Length;
    var i := 0;
    while i < n && objs[i].obj.kind.typ == PU
      invariant 0 <= i <= n && FirstTop(ts, 0) == FirstTop(ts, i)
    {
      i := i + 1;
    }
    top := if i == n then 0 else i;
    hide Below, SameType;
    for j := 0 to n
      invariant top < n && HigherTop(ts, 0, FirstTop(ts, 0)) == HigherTop(ts, j, top)
    {
      if !SameType(objs[top].obj.kind, objs[j].obj.kind) {
        var above := FindSameType(objs[j], objs[top].obj.kind);
        if above {
          top := j;
        }
      }
    }
  }

  // ---- One level ----

  lemma TakenNext(ts: seq<Tree>, k: Kind, i: nat)
    requires i < |ts|
    ensures Taken(ts[..i + 1], k) == Taken(ts[..i], k) + if SameType(k, ts[i].obj.kind) then [ts[i]] else []
    ensures Remaining(ts[..i + 1], k) == Remaining(ts[..i], k) + if SameType(k, ts[i].obj.kind) then ts[i].children
        else [ts[i]]
    ensures |Taken(ts[..i + 1], k)| <= |Taken(ts, k)| && |Remaining(ts[..i + 1], k)| <= |Remaining(ts, k)|
  {
    hide SameType;
    TakenJoined(ts[..i], [ts[i]], k);
    RemainingJoined(ts[..i], [ts[i]], k);
    assert ts[..i] + [ts[i]] == ts[..i + 1];
    TakenJoined(ts[..i + 1], ts[i + 1..], k);
    RemainingJoined(ts[..i + 1], ts[i + 1..], k);
    assert ts[..i + 1] + ts[i + 1..] == ts;
    OneTaken(ts[i], k);
  }

  lemma OneTaken(t: Tree, k: Kind)
    ensures Taken([t], k) == if SameType(k, t.obj.kind) then [t] else []
    ensures Remaining([t], k) == if SameType(k, t.obj.kind) then t.children else [t]
  {
    hide SameType;
    assert [t][1..] == [];
    assert t.children + [] == t.children;
  }

  lemma {:induction false} TakenJoined(a: seq<Tree>, b: seq<Tree>, k: Kind)
    ensures Taken(a + b, k) == Taken(a, k) + Taken(b, k)
    decreases |a|
  {
    hide SameType, Taken;
    if a == [] {
      assert a + b == b;
      NothingTaken(k);
    } else {
      TakenJoined(a[1..], b, k);
      assert (a + b)[1..] == a[1..] + b && (a + b)[0] == a[0];
      TakenStep(a, k);
      TakenStep(a + b, k);
      Regroup([a[0]], Taken(a[1..], k), Taken(b, k));
    }
  }

  lemma {:induction false} RemainingJoined(a: seq<Tree>, b: seq<Tree>, k: Kind)
    ensures Remaining(a + b, k) == Remaining(a, k) + Remaining(b, k)
    decreases |a|
  {
    hide SameType, Remaining;
    if a == [] {
      assert a + b == b;
      NothingTaken(k);
    } else {
      RemainingJoined(a[1..], b, k);
      assert (a + b)[1..] == a[1..] + b && (a + b)[0] == a[0];
      RemainingStep(a, k);
      RemainingStep(a + b, k);
      var first := if SameType(k, a[0].obj.kind) then a[0].children else [a[0]];
      Regroup(first, Remaining(a[1..], k), Remaining(b, k));
    }
  }

  /** Counting first: the sizes of the two arrays. */
  method CountTaken(objs: array<Tree>, k: Kind) returns (taken: nat, added: nat)
    ensures taken == |Taken(objs[..], k)| && objs.Length - taken + added == |Remaining(objs[..], k)|
        && taken <= objs.Length
  {
    hide SameType, Taken, Remaining;
    ghost var ts := objs[..];
    assert ts[..objs.Length] == ts && ts[..0] == [];
    taken, added := 0, 0;
    NothingTaken(k);
    for i := 0 to objs.Length
      invariant taken == |Taken(ts[..i], k)| && i - taken + added == |Remaining(ts[..i], k)| && taken <= i
    {
      TakenNext(ts, k, i);
      if SameType(k, objs[i].obj.kind) {
        taken := taken + 1;
        added := added + |objs[i].children|;
      }
    }
  }

  /** `hwloc_level_take_objects`: both arrays are filled exactly. */
  method TakeObjects(objs: array<Tree>, k: Kind, taken: array<Tree>, remaining: array<Tree>)
    requires taken.Length == |Taken(objs[..], k)| && remaining.Length == |Remaining(objs[..], k)|
    requires objs != taken && objs != remaining && taken != remaining
    modifies taken, remaining
    ensures taken[..] == Taken(objs[..], k) && remaining[..] == Remaining(objs[..], k)
  {
    hide SameType, Taken, Remaining;
    ghost var ts := objs[..];
    assert ts[..objs.Length] == ts && ts[..0] == [];
    var takenI, newI := 0, 0;
    NothingTaken(k);
    for i := 0 to objs.Length
      invariant objs[..] == ts
      invariant takenI == |Taken(ts[..i], k)| <= taken.Length && taken[..takenI] == Taken(ts[..i], k)
      invariant newI == |Remaining(ts[..i], k)| <= remaining.Length && remaining[..newI] == Remaining(ts[..i], k)
    {
      TakenNext(ts, k, i);
      if SameType(k, objs[i].obj.kind) {
        taken[takenI] := objs[i];
        takenI := takenI + 1;
        newI := CopyChildren(remaining, newI, objs[i].children);
      } else {
        remaining[newI] := objs[i];
        newI := newI + 1;
      }
    }
    assert taken[..takenI] == taken[..] && remaining[..newI] == remaining[..];
  }

  /** The inner loop over the children of a taken object. */
  method CopyChildren(remaining: array<Tree>, at: nat, children: seq<Tree>) returns (at': nat)
    requires at + |children| <= remaining.Length
    modifies remaining
    ensures at' == at + |children| && remaining[..at'] == old(remaining[..at]) + children
  {
    at' := at;
    for j := 0 to |children|
      invariant at' == at + j && remaining[..at'] == old(remaining[..at]) + children[..j]
    {
      remaining[at'] := children[j];
      at' := at' + 1;
    }
  }

  // ---- Depths, indexes and cousins ----

  ghost predicate Numbered(level: seq<LevelObj>, depth: nat)
    reads level
  {
    forall i {:trigger level[i].depth} :: 0 <= i < |level| ==>
      && level[i].depth == depth && level[i].logicalIndex == i
      && level[i].prevCousin == (if i > 0 then level[i - 1] else null)
      && level[i].nextCousin == (if i + 1 < |level| then level[i + 1] else null)
  }

  ghost predicate NoRepeats(level: seq<LevelObj>) {
    forall i, j :: 0 <= i < j < |level| ==> level[i] != level[j]
  }

  /** The first `i` objects have their numbers and the links between them. */
  ghost predicate Numbering(objs: seq<LevelObj>, depth: nat, i: nat)
    reads objs
  {
    i <= |objs| && forall j {:trigger objs[j].depth} :: 0 <= j < i ==>
      && objs[j].depth == depth && objs[j].logicalIndex == j
      && (j > 0 ==> objs[j].prevCousin == objs[j - 1])
      && (j + 1 < i ==> objs[j].nextCousin == objs[j + 1])
  }

  method NumberOne(o: LevelObj, before: LevelObj?, depth: nat, i: nat, ghost objs: seq<LevelObj>)
    requires i < |objs| && o == objs[i] && before == (if i > 0 then objs[i - 1] else null)
    requires NoRepeats(objs) && Numbering(objs, depth, i)
    modifies o, before
    ensures Numbering(objs, depth, i + 1)
  {
    o.depth := depth;
    o.logicalIndex := i;
    if before != null {
      o.prevCousin := before;
      before.nextCousin := o;
    }
    forall j | 0 <= j < i + 1
      ensures objs[j].depth == depth && objs[j].logicalIndex == j
      ensures j > 0 ==> objs[j].prevCousin == objs[j - 1]
      ensures j + 1 < i + 1 ==> objs[j].nextCousin == objs[j + 1]
    {
      assert j < i ==> objs[j] != objs[i] && old(objs[j].depth) == depth;
      assert j < i - 1 ==> objs[j] != objs[i - 1];
    }
  }

  method EndLevel(first: LevelObj, last: LevelObj, depth: nat, ghost objs: seq<LevelObj>)
    requires objs != [] && first == objs[0] && last == objs[|objs| - 1]
    requires NoRepeats(objs) && Numbering(objs, depth, |objs|)
    modifies first`prevCousin, last`nextCousin
    ensures Numbered(objs, depth)
  {
    first.prevCousin := null;
    last.nextCousin := null;
    forall j | 0 <= j < |objs|
      ensures objs[j].depth == depth && objs[j].logicalIndex == j
      ensures objs[j].prevCousin == (if j > 0 then objs[j - 1] else null)
      ensures objs[j].nextCousin == (if j + 1 < |objs| then objs[j + 1] else null)
    {
      assert old(objs[j].depth) == depth;
      assert j > 0 ==> objs[j] != objs[0];
      assert j < |objs| - 1 ==> objs[j] != objs[|objs| - 1];
    }
  }

  /** The loop that puts numbers in a level and links cousins. */
  method NumberLevel(taken: array<Tree>, depth: nat, ghost all: set<LevelObj>) returns (level: seq<LevelObj>)
    requires taken.Length > 0 && NoRepeats(Objs(taken[..]))
    requires forall i :: 0 <= i < taken.Length ==> taken[i].obj in all
    modifies set i | 0 <= i < taken.Length :: taken[i].obj
    ensures level == Objs(taken[..]) && Numbered(level, depth)
  {
    ghost var objs := Objs(taken[..]);
    assert forall i :: 0 <= i < taken.Length ==> objs[i] == taken[i].obj;
    hide Numbered, NoRepeats, Objs;
    level := [];
    assert Numbering(objs, depth, 0);
    hide Numbering;
    for i := 0 to taken.Length
      invariant taken[..] == old(taken[..]) && level == objs[..i]
      invariant forall j :: 0 <= j < taken.Length ==> objs[j] == taken[j].obj
      invariant Numbering(objs, depth, i)
    {
      var o := taken[i].obj;
      var before := if i > 0 then taken[i - 1].obj else null;
      NumberOne(o, before, depth, i, objs);
      level := level + [o];
    }
    assert level == objs;
    EndLevel(taken[0].obj, taken[taken.Length - 1].obj, depth, objs);
  }

  // ---- All levels ----

  lemma {:induction false} PartNoRepeats(p: seq<LevelObj>, q: seq<LevelObj>)
    requires Part(p, q) && NoRepeats(q)
    ensures NoRepeats(p) && forall i :: 0 <= i < |p| ==> p[i] in q
    decreases |p| + |q|
  {
    if p != [] {
      if p[0] == q[0] && Part(p[1..], q[1..]) {
        PartNoRepeats(p[1..], q[1..]);
        assert forall i :: 0 < i < |p| ==> p[i] == p[1..][i - 1] && p[i] in q[1..] && p[i] != q[0];
        forall i, j | 0 <= i < j < |p|
          ensures p[i] != p[j]
        {
          assert p[j] == p[1..][j - 1];
          assert i > 0 ==> p[i] == p[1..][i - 1];
        }
      } else {
        PartNoRepeats(p, q[1..]);
      }
    }
  }

  ghost function Members(q: seq<LevelObj>): set<LevelObj> {
    set o | o in q
  }

  /** What a round needs: objects that go in levels, each there once. */
  ghost predicate Ready(ts: seq<Tree>, all: set<LevelObj>) {
    AllLevelled(ts) && NoRepeats(InOrder(ts)) && Members(InOrder(ts)) <= all
  }

  lemma {:induction false} InMultiset(p: seq<LevelObj>, o: LevelObj)
    requires NoRepeats(p)
    ensures multiset(p)[o] <= 1
  {
    if p != [] {
      assert p == [p[0]] + p[1..];
      InMultiset(p[1..], o);
      assert forall i :: 0 < i < |p| ==> p[i] == p[1..][i - 1];
      if o == p[0] {
        assert o !in p[1..];
        assert o !in multiset(p[1..]);
      }
    }
  }

  /** A round leaves less to do, and what it has taken does not come back. */
  lemma RoundSplits(ts: seq<Tree>, all: set<LevelObj>)
    requires Ready(ts, all) && ts != []
    ensures
      var k := ts[Top(ts)].obj.kind;
      var taken, next := Objs(Taken(ts, k)), Filtered(Remaining(ts, k));
      && Ready(next, all) && AllLevelled(next) && |InOrder(next)| < |InOrder(ts)|
      && AllLevels(ts) == [taken] + AllLevels(next)
      && NoRepeats(taken) && taken != [] && Members(taken) <= Members(InOrder(ts))
      && Members(taken) !! Members(InOrder(next)) && Members(InOrder(next)) <= Members(InOrder(ts))
  {
    hide AllLevels, InOrder, Taken, Remaining, Filtered, SameType, Top, Part, NoRepeats;
    var k := ts[Top(ts)].obj.kind;
    var taken, next := Objs(Taken(ts, k)), Filtered(Remaining(ts, k));
    NextLevels(ts);
    PartNoRepeats(taken, InOrder(ts));
    PartNoRepeats(InOrder(next), InOrder(ts));
    forall o | o in taken
      ensures o !in InOrder(next)
    {
      InMultiset(InOrder(ts), o);
      assert o in multiset(taken);
      assert multiset(InOrder(ts))[o] == multiset(taken)[o] + multiset(InOrder(next))[o];
      assert o !in multiset(InOrder(next));
    }
  }

  /** One round: choose the top, count, take, number, and filter what remains. */
  method BuildLevel(objs: array<Tree>, depth: nat, ghost all: set<LevelObj>)
      returns (level: seq<LevelObj>, next: array<Tree>)
    requires objs.Length > 0 && Ready(objs[..], all)
    modifies Members(InOrder(objs[..]))
    ensures fresh(next)
    ensures
      var ts := old(objs[..]);
      var k := ts[Top(ts)].obj.kind;
      level == Objs(Taken(ts, k)) && next[..] == Filtered(Remaining(ts, k))
    ensures Numbered(level, depth)
  {
    hide Ready, AllLevels, InOrder, Taken, Remaining, Filtered, SameType, Top, Numbered, NoRepeats, Objs;
    ghost var ts := objs[..];
    RoundSplits(ts, all);
    var top := ChooseTop(objs);
    var topKind := objs[top].obj.kind;
    var n, added := CountTaken(objs, topKind);
    var filler := objs[0];
    var taken := new Tree[n](_ => filler);
    var remaining := new Tree[objs.Length - n + added](_ => filler);
    TakeObjects(objs, topKind, taken, remaining);
    TakenListed(ts, topKind, taken[..], all);
    level := NumberLevel(taken, depth, all);
    next := FilterObjects(remaining);
  }

  lemma TakenListed(ts: seq<Tree>, k: Kind, taken: seq<Tree>, all: set<LevelObj>)
    requires Ready(ts, all) && taken == Taken(ts, k) && Members(Objs(taken)) <= Members(InOrder(ts))
        && Objs(taken) != []
    ensures |taken| > 0 && forall i :: 0 <= i < |taken| ==> taken[i].obj in all && taken[i].obj in Members(InOrder(ts))
  {
    hide InOrder, Taken, SameType;
    forall i | 0 <= i < |taken|
      ensures taken[i].obj in Members(InOrder(ts))
    {
      assert Objs(taken)[i] in Members(Objs(taken));
    }
  }

  /** The levels below the root. */
  ghost function BelowRoot(root: Tree): seq<seq<LevelObj>> {
    FilteredKeepsOrder(root.children);
    AllLevels(Filtered(root.children))
  }

  /** The objects of the levels are apart from those still to come. */
  ghost predicate Done(levels: seq<seq<LevelObj>>, ts: seq<Tree>, all: set<LevelObj>) {
    forall l :: 0 <= l < |levels| ==> Members(levels[l]) !! Members(InOrder(ts)) && Members(levels[l]) <= all
  }

  ghost predicate Building(root: Tree, levels: seq<seq<LevelObj>>, ts: seq<Tree>, all: set<LevelObj>) {
    Ready(ts, all) && levels + AllLevels(ts) == BelowRoot(root) && Done(levels, ts, all)
  }

  lemma BuildingStep(root: Tree, levels: seq<seq<LevelObj>>, ts: seq<Tree>, all: set<LevelObj>)
    requires Building(root, levels, ts, all) && ts != []
    ensures
      var k := ts[Top(ts)].obj.kind;
      var taken, next := Objs(Taken(ts, k)), Filtered(Remaining(ts, k));
      && Building(root, levels + [taken], next, all) && |InOrder(next)| < |InOrder(ts)|
    ensures Ready(ts, all) && Done(levels, ts, all)
  {
    hide Ready, AllLevels, InOrder, Taken, Remaining, Filtered, SameType, Top, NoRepeats, Objs, BelowRoot;
    var k := ts[Top(ts)].obj.kind;
    var taken, next := Objs(Taken(ts, k)), Filtered(Remaining(ts, k));
    RoundSplits(ts, all);
    assert levels + ([taken] + AllLevels(next)) == (levels + [taken]) + AllLevels(next);
    ReadyInside(ts, all);
  }

  lemma ReadyInside(ts: seq<Tree>, all: set<LevelObj>)
    requires Ready(ts, all)
    ensures Members(InOrder(ts)) <= all
  {
  }

  lemma BuildingEnds(root: Tree, levels: seq<seq<LevelObj>>, all: set<LevelObj>)
    requires Building(root, levels, [], all)
    ensures levels == BelowRoot(root)
  {
    NoLevels();
  }

  lemma BuildingStarts(root: Tree, all: set<LevelObj>)
    requires NoRepeats(InOrder(root.children)) && Members(InOrder(root.children)) <= all
    ensures Building(root, [], Filtered(root.children), all)
  {
    hide AllLevels, InOrder, Filtered, NoRepeats;
    FilteredKeepsOrder(root.children);
    assert [] + AllLevels(Filtered(root.children)) == AllLevels(Filtered(root.children));
  }

  ghost predicate AllNumbered(levels: seq<seq<LevelObj>>)
    reads set l, i | 0 <= l < |levels| && 0 <= i < |levels[l]| :: levels[l][i]
  {
    forall l :: 0 <= l < |levels| ==> Numbered(levels[l], l + 1)
  }

  /** A round, with what it adds to the levels. */
  method AddLevel(objs: array<Tree>, levels: seq<seq<LevelObj>>, ghost root: Tree, ghost all: set<LevelObj>)
    returns (levels': seq<seq<LevelObj>>, next: array<Tree>)
    requires objs.Length > 0 && Building(root, levels, objs[..], all) && AllNumbered(levels)
    modifies Members(InOrder(objs[..]))
    ensures fresh(next) && Building(root, levels', next[..], all) && AllNumbered(levels')
    ensures |InOrder(next[..])| < |InOrder(old(objs[..]))|
  {
    hide Building, Ready, InOrder, Taken, Remaining, Filtered, SameType, Top, Numbered, Objs;
    BuildingStep(root, levels, objs[..], all);
    ghost var ts := objs[..];
    var level;
    level, next := BuildLevel(objs, |levels| + 1, all);
    forall l | 0 <= l < |levels|
      ensures Numbered(levels[l], l + 1)
    {
      assert old(Numbered(levels[l], l + 1));
      assert Members(levels[l]) !! Members(InOrder(ts));
      assert forall i :: 0 <= i < |levels[l]| ==> levels[l][i] in Members(levels[l]);
    }
    levels' := levels + [level];
  }

  /** One level after the other. */
  method BuildLevels(start: array<Tree>, ghost root: Tree, ghost all: set<LevelObj>)
    returns (levels: seq<seq<LevelObj>>)
    requires Building(root, [], start[..], all)
    modifies all
    ensures levels == BelowRoot(root) && AllNumbered(levels)
  {
    hide Building, InOrder, Numbered, BelowRoot;
    var objs := start;
    levels := [];
    while objs.Length > 0
      invariant Building(root, levels, objs[..], all) && AllNumbered(levels)
      decreases |InOrder(objs[..])|
    {
      BuildingInside(root, levels, objs[..], all);
      levels, objs := AddLevel(objs, levels, root, all);
    }
    assert objs[..] == [];
    BuildingEnds(root, levels, all);
  }

  /** `hwloc_connect_levels`: it ends, the levels are those that were described, and every object
      knows its depth, its place and its cousins. */
  method ConnectLevels(root: Tree, ghost all: set<LevelObj>) returns (levels: seq<seq<LevelObj>>)
    requires NoRepeats(InOrder(root.children)) && Members(InOrder(root.children)) <= all
    modifies all
    ensures levels == [[root.obj]] + BelowRoot(root)
    ensures forall l :: 1 <= l < |levels| ==> Numbered(levels[l], l)
  {
    hide InOrder, Building, Numbered, NoRepeats, BelowRoot;
    var children := new Tree[|root.children|](i requires 0 <= i < |root.children| => root.children[i]);
    assert children[..] == root.children;
    var objs := FilterObjects(children);
    BuildingStarts(root, all);
    var below := BuildLevels(objs, root, all);
    assert AllNumbered(below);
    levels := [[root.obj]] + below;
  }

  lemma BuildingInside(root: Tree, levels: seq<seq<LevelObj>>, ts: seq<Tree>, all: set<LevelObj>)
    requires Building(root, levels, ts, all)
    ensures Members(InOrder(ts)) <= all
  {
  }

  // ---- The levels of a topology ----

  /** Every object that goes in levels, Misc and I/O objects around it or not, is in exactly one. */
  lemma TopologyInLevels(root: Tree)
    ensures multiset(Flat(BelowRoot(root))) == multiset(InOrder(root.children))
  {
    FilteredKeepsOrder(root.children);
    LevelsHoldAll(Filtered(root.children));
  }

  /** Every level has one type and is in the depth-first order of the tree. */
  lemma LevelsAreSorted(root: Tree, l: nat)
    requires l < |BelowRoot(root)|
    ensures BelowRoot(root)[l] != [] && Part(BelowRoot(root)[l], InOrder(root.children))
    ensures forall i, j :: 0 <= i < |BelowRoot(root)[l]| && 0 <= j < |BelowRoot(root)[l]| ==>
      SameType(BelowRoot(root)[l][i].kind, BelowRoot(root)[l][j].kind)
  {
    FilteredKeepsOrder(root.children);
    LevelsOrdered(Filtered(root.children), l);
  }

  /** An object is deeper than all objects above it. */
  lemma AncestorsAreHigher(root: Tree, a: LevelObj, b: LevelObj) returns (i: nat, j: nat)
    requires Above(root.children, a, b)
    ensures i < j < |BelowRoot(root)| && a in BelowRoot(root)[i] && b in BelowRoot(root)[j]
  {
    FilteredKeepsOrder(root.children);
    FilteredKeepsAbove(root.children, a, b);
    i, j := AncestorsFirst(Filtered(root.children), a, b);
  }

  /** All PUs are in the last level. */
  lemma PusAreLast(root: Tree, o: LevelObj)
    requires Tidy(root.children) && o in InOrder(root.children) && o.kind.typ == PU
    ensures BelowRoot(root) != [] && o in BelowRoot(root)[|BelowRoot(root)| - 1]
  {
    FilteredKeepsOrder(root.children);
    FilteredTidy(root.children);
    PusLast(Filtered(root.children), o);
  }
}
