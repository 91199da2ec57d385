/** Grouping objects that are at minimal distance of one another (src/distances.c). */
module GroupSearch {
  import opened MatrixCompaction

  const FLT_MAX: real := 340282346638528859811704183484516925440.0

  // ---- Distances ----

  ghost predicate Square(d: seq<real>, n: nat) {
    |d| == Pos(n, n, 0)
  }

  /** `DISTANCE(i, j)`. */
  function Distance(d: seq<real>, n: nat, i: nat, j: nat): real
    requires Square(d, n) && i < n && j < n
  {
    PosInside(n, i, j);
    d[Pos(n, i, j)]
  }

  function Abs(x: real): real {
    if x < 0.0 then -x else x
  }

  /** `hwloc_compare_distances`. */
  function CompareDistances(a: real, b: real, accuracy: real): int {
    if accuracy != 0.0 && Abs(a - b) < a * accuracy then 0
    else if a < b then -1 else if a == b then 0 else 1
  }

  /** The accuracy is taken from the first operand: two distances are equal one way round and not the
      other exactly when their difference is between the two margins. */
  lemma AccuracyIsOneSided(a: real, b: real, accuracy: real)
    ensures
      var swap := a * accuracy > b * accuracy;
      var low, high := (if swap then b else a) * accuracy, (if swap then a else b) * accuracy;
      (CompareDistances(a, b, accuracy) == 0) != (CompareDistances(b, a, accuracy) == 0)
      <==> accuracy != 0.0 && low <= Abs(a - b) < high
  {
  }

  /** Without an accuracy distances compare as numbers. */
  lemma ExactComparison(a: real, b: real)
    ensures CompareDistances(a, b, 0.0) < 0 <==> a < b
    ensures CompareDistances(a, b, 0.0) == 0 <==> a == b
    ensures CompareDistances(a, b, 0.0) > 0 <==> a > b
  {
  }

  /** The smallest distance between two objects. */
  ghost predicate IsLeast(d: seq<real>, n: nat, least: real)
    requires Square(d, n)
  {
    && least <= FLT_MAX
    && (forall i: nat, j: nat :: i < n && j < n && i != j ==> least <= Distance(d, n, i, j))
    && (least == FLT_MAX || exists i: nat, j: nat :: i < n && j < n && i != j && Distance(d, n, i, j) == least)
  }

  type Pairs = set<(nat, nat)>

  /** The pairs at minimal distance. */
  ghost function Near(d: seq<real>, n: nat, least: real, accuracy: real): Pairs
    requires Square(d, n)
  {
    set i: nat, j: nat | i < n && j < n && CompareDistances(Distance(d, n, i, j), least, accuracy) == 0 :: (i, j)
  }

  // ---- What the search does ----

  /** The objects of row `j` that have no group yet join it. */
  ghost function Joined(near: Pairs, ids: seq<nat>, g: nat, j: nat): (r: seq<nat>)
    ensures |r| == |ids|
  {
    seq(|ids|, k requires 0 <= k < |ids| => if ids[k] == 0 && (j, k) in near then g else ids[k])
  }

  /** The first object that joins, from `k` on, or -1. */
  ghost function FirstJoining(near: Pairs, ids: seq<nat>, j: nat, k: nat): (r: int)
    ensures r == -1 || (k <= r < |ids| && ids[r] == 0 && (j, r) in near)
    ensures r == -1 ==> forall l :: k <= l < |ids| ==> !(ids[l] == 0 && (j, l) in near)
    decreases |ids| - k
  {
    if k >= |ids| then -1 else if ids[k] == 0 && (j, k) in near then k else FirstJoining(near, ids, j, k + 1)
  }

  /** Only objects without a group may have joined, and only group `g`. */
  ghost predicate Grown(ids: seq<nat>, more: seq<nat>, g: nat) {
    |more| == |ids| && forall k :: 0 <= k < |ids| ==> more[k] == ids[k] || (ids[k] == 0 && more[k] == g)
  }

  /** One scan from row `j` on; the objects that join during the scan count as soon as it reaches
      them. The first object found is not the smallest one. */
  ghost function Scan(near: Pairs, ids: seq<nat>, g: nat, j: nat): (r: (seq<nat>, int))
    requires g > 0
    ensures Grown(ids, r.0, g)
    ensures r.1 == -1 <==> r.0 == ids
    ensures r.1 != -1 ==> 0 <= r.1 < |ids| && ids[r.1] == 0 && r.0[r.1] == g
    decreases |ids| - j
  {
    if j >= |ids| then (ids, -1)
    else if ids[j] != g then Scan(near, ids, g, j + 1)
    else
      var first := FirstJoining(near, ids, j, 0);
      var (more, later) := Scan(near, Joined(near, ids, g, j), g, j + 1);
      assert first == -1 ==> Joined(near, ids, g, j) == ids;
      (more, if first != -1 then first else later)
  }

  ghost function Free(ids: seq<nat>): nat {
    if ids == [] then 0 else Free(ids[..|ids| - 1]) + if ids[|ids| - 1] == 0 then 1 else 0
  }

  lemma {:induction false} FewerFree(ids: seq<nat>, more: seq<nat>, g: nat)
    requires Grown(ids, more, g) && g > 0
    ensures Free(more) <= Free(ids)
    ensures more != ids ==> Free(more) < Free(ids)
  {
    if ids != [] {
      var n := |ids| - 1;
      FewerFree(ids[..n], more[..n], g);
      assert ids == ids[..n] + [ids[n]] && more == more[..n] + [more[n]];
    }
  }

  /** Scans go on as long as they find objects, each from the first object that the last one found. */
  ghost function Close(near: Pairs, ids: seq<nat>, g: nat, first: int): (r: seq<nat>)
    requires g > 0
    ensures Grown(ids, r, g)
    decreases Free(ids), first + 1
  {
    if first < 0 then ids else
    var (more, found) := Scan(near, ids, g, first);
    FewerFree(ids, more, g);
    if found == -1 then more else Close(near, more, g, found)
  }

  datatype Search = Search(ids: seq<nat>, next: nat, skipped: nat)

  /** The search from object `i` on. A group of one object is cancelled. */
  ghost function Groups(near: Pairs, s: Search, i: nat): (r: Search)
    requires s.next > 0
    ensures r.next > 0 && |r.ids| == |s.ids|
    decreases |s.ids| - i
  {
    if i >= |s.ids| then s
    else if s.ids[i] != 0 then Groups(near, s, i + 1)
    else
      var alone := s.ids[i := s.next];
      var group := Close(near, alone, s.next, i);
      Groups(near, if group == alone then s.(skipped := s.skipped + 1) else Search(group, s.next + 1, s.skipped), i + 1)
  }

  ghost function Start(n: nat): (s: Search)
    ensures s.next == 1 && s.skipped == 0 && |s.ids| == n && forall k :: 0 <= k < n ==> s.ids[k] == 0
  {
    Search(seq(n, _ => 0), 1, 0)
  }

  /** A single group of all objects is no group. */
  function Count(s: Search): nat {
    if s.next == 2 && s.skipped == 0 then 0 else if s.next >= 1 then s.next - 1 else 0
  }

  // ---- The loops ----

  /** The first loop nest. */
  method FindLeast(n: nat, d: array<real>) returns (least: real)
    requires Square(d[..], n)
    ensures IsLeast(d[..], n, least)
  {
    hide Pos;
    least := FLT_MAX;
    for i := 0 to n
      invariant least <= FLT_MAX
      invariant forall k: nat, j: nat :: k < i && j < n && k != j ==> least <= Distance(d[..], n, k, j)
      invariant least == FLT_MAX || exists k: nat, j: nat ::
          k < n && j < n && k != j && Distance(d[..], n, k, j) == least
    {
      for j := 0 to n
        invariant least <= FLT_MAX
        invariant forall k: nat, l: nat :: k < i && l < n && k != l ==> least <= Distance(d[..], n, k, l)
        invariant forall l: nat :: l < j && i != l ==> least <= Distance(d[..], n, i, l)
        invariant least == FLT_MAX || exists k: nat, l: nat ::
            k < n && l < n && k != l && Distance(d[..], n, k, l) == least
      {
        PosInside(n, i, j);
        assert d[Pos(n, i, j)] == Distance(d[..], n, i, j);
        if i != j && d[Pos(n, i, j)] < least {
          least := d[Pos(n, i, j)];
        }
      }
    }
  }

  /** The innermost loop: row `j` of a scan. */
  method JoinRow(n: nat, d: array<real>, least: real, accuracy: real, groupids: array<nat>, g: nat, j: nat,
      found: int, size: nat)
    returns (found': int, size': nat)
    requires Square(d[..], n) && groupids.Length == n && j < n && g > 0
    modifies groupids
    ensures
      var near := Near(d[..], n, least, accuracy);
      && groupids[..] == Joined(near, old(groupids[..]), g, j)
      && found' == (if found != -1 then found else FirstJoining(near, old(groupids[..]), j, 0))
      && size' >= size && (size' == size <==> groupids[..] == old(groupids[..]))
  {
    hide Pos, CompareDistances;
    ghost var near := Near(d[..], n, least, accuracy);
    ghost var before := groupids[..];
    found', size' := found, size;
    for k := 0 to n
      invariant forall l :: 0 <= l < n ==> groupids[l] == if l < k then Joined(near, before, g, j)[l] else before[l]
      invariant found' == (if found != -1 then found else found')
      invariant found == -1 ==> FirstJoining(near, before, j, 0) == if found' != -1 then found'
          else FirstJoining(near, before, j, k)
      invariant size' >= size && (size' == size <==> forall l :: 0 <= l < k ==>
          Joined(near, before, g, j)[l] == before[l])
    {
      PosInside(n, j, k);
      assert d[Pos(n, j, k)] == Distance(d[..], n, j, k);
      assert (j, k) in near <==> CompareDistances(d[Pos(n, j, k)], least, accuracy) == 0;
      if groupids[k] == 0 && CompareDistances(d[Pos(n, j, k)], least, accuracy) == 0 {
        groupids[k] := g;
        size' := size' + 1;
        if found' == -1 {
          found' := k;
        }
      }
    }
    assert groupids[..] == Joined(near, before, g, j);
  }

  /** One scan: the rows from `first` on. */
  method ScanRows(n: nat, d: array<real>, least: real, accuracy: real, groupids: array<nat>, g: nat, first: nat,
      size: nat)
    returns (found: int, size': nat)
    requires Square(d[..], n) && groupids.Length == n && g > 0
    modifies groupids
    ensures
      var near := Near(d[..], n, least, accuracy);
      && Scan(near, old(groupids[..]), g, first) == (groupids[..], found)
      && size' >= size && (size' == size <==> groupids[..] == old(groupids[..]))
  {
    hide Near, Joined, FirstJoining;
    ghost var near := Near(d[..], n, least, accuracy);
    ghost var before := groupids[..];
    found, size' := -1, size;
    var j := first;
    while j < n
      invariant first <= j && groupids.Length == n && Grown(before, groupids[..], g)
      invariant Scan(near, before, g, first).0 == Scan(near, groupids[..], g, j).0
      invariant Scan(near, before, g, first).1 == if found != -1 then found else Scan(near, groupids[..], g, j).1
      invariant found >= -1 && size' >= size && (size' == size <==> groupids[..] == before)
      decreases n - j
    {
      if groupids[j] == g {
        ghost var now := groupids[..];
        JoinedGrows(near, before, now, g, j);
        found, size' := JoinRow(n, d, least, accuracy, groupids, g, j, found, size');
      }
      j := j + 1;
    }
  }

  lemma JoinedGrows(near: Pairs, before: seq<nat>, now: seq<nat>, g: nat, j: nat)
    requires Grown(before, now, g) && g > 0
    ensures Grown(before, Joined(near, now, g, j), g)
    ensures Joined(near, now, g, j) == before <==> now == before && Joined(near, now, g, j) == now
    ensures FirstJoining(near, now, j, 0) == -1 || FirstJoining(near, now, j, 0) >= 0
  {
    var more := Joined(near, now, g, j);
    if more == before {
      assert forall k :: 0 <= k < |now| ==> now[k] == before[k];
    }
  }

  /** The `while` loop: scans until nothing joins. */
  method CloseGroup(n: nat, d: array<real>, least: real, accuracy: real, groupids: array<nat>, g: nat, i: nat)
    returns (size: nat)
    requires Square(d[..], n) && groupids.Length == n && g > 0 && i < n
    modifies groupids
    ensures groupids[..] == Close(Near(d[..], n, least, accuracy), old(groupids[..]), g, i)
    ensures size >= 1 && (size == 1 <==> groupids[..] == old(groupids[..]))
  {
    hide Near, Scan, Square;
    ghost var near := Near(d[..], n, least, accuracy);
    ghost var before := groupids[..];
    size := 1;
    var firstfound := i as int;
    while firstfound != -1
      invariant firstfound >= -1 && groupids.Length == n && Grown(before, groupids[..], g)
      invariant Close(near, before, g, i) == Close(near, groupids[..], g, firstfound)
      invariant size >= 1 && (size == 1 <==> groupids[..] == before)
      decreases Free(groupids[..]), firstfound + 1
    {
      ghost var now := groupids[..];
      firstfound, size := ScanRows(n, d, least, accuracy, groupids, g, firstfound, size);
      FewerFree(now, groupids[..], g);
      GrownTwice(before, now, groupids[..], g);
    }
  }

  lemma GrownTwice(a: seq<nat>, b: seq<nat>, c: seq<nat>, g: nat)
    requires Grown(a, b, g) && Grown(b, c, g) && g > 0
    ensures Grown(a, c, g) && (c == a ==> b == a)
  {
    if c == a {
      assert forall k :: 0 <= k < |a| ==> b[k] == a[k];
    }
  }

  /** A new group from object `i`, cancelled when nothing joins it. */
  method StartGroup(n: nat, d: array<real>, least: real, accuracy: real, groupids: array<nat>, g: nat, i: nat)
    returns (size: nat)
    requires Square(d[..], n) && groupids.Length == n && g > 0 && i < n && groupids[i] == 0
    modifies groupids
    ensures
      var alone := old(groupids[..])[i := g];
      var group := Close(Near(d[..], n, least, accuracy), alone, g, i);
      && (size == 1 <==> group == alone)
      && groupids[..] == if size == 1 then old(groupids[..]) else group
  {
    hide Near, Close, Square;
    ghost var before := groupids[..];
    groupids[i] := g;
    assert groupids[..] == before[i := g];
    size := CloseGroup(n, d, least, accuracy, groupids, g, i);
    if size == 1 {
      groupids[i] := 0;
      assert groupids[..] == before;
    }
  }

  /** The main loop, over the objects that have no group yet. */
  method SearchGroups(n: nat, d: array<real>, least: real, accuracy: real, groupids: array<nat>) returns (nbgroups: nat)
    requires Square(d[..], n) && groupids.Length == n && groupids[..] == Start(n).ids
    modifies groupids
    ensures
      var found := Groups(Near(d[..], n, least, accuracy), Start(n), 0);
      groupids[..] == found.ids && nbgroups == Count(found)
  {
    hide Near, Close, Start, Square, Groups, Grown;
    ghost var near := Near(d[..], n, least, accuracy);
    var groupid, skipped := 1, 0;
    for i := 0 to n
      invariant groupid >= 1
      invariant Groups(near, Start(n), 0) == Groups(near, Search(groupids[..], groupid, skipped), i)
    {
      GroupsStep(near, Search(groupids[..], groupid, skipped), i);
      if groupids[i] == 0 {
        var size := StartGroup(n, d, least, accuracy, groupids, groupid, i);
        if size == 1 {
          skipped := skipped + 1;
        } else {
          groupid := groupid + 1;
        }
      }
    }
    GroupsEnd(near, Search(groupids[..], groupid, skipped), n);
    nbgroups := if groupid == 2 && skipped == 0 then 0 else groupid - 1;
  }

  /** `hwloc__find_groups_by_min_distance`. */
  method FindGroups(n: nat, d: array<real>, accuracy: real, groupids: array<nat>)
      returns (nbgroups: nat, ghost least: real)
    requires Square(d[..], n) && groupids.Length == n
    modifies groupids
    ensures IsLeast(d[..], n, least)
    ensures least == FLT_MAX ==> nbgroups == 0
    ensures least != FLT_MAX ==>
      var found := Groups(Near(d[..], n, least, accuracy), Start(n), 0);
      groupids[..] == found.ids && nbgroups == Count(found)
  {
    hide IsLeast, Near, Groups;
    forall k | 0 <= k < n {
      groupids[k] := 0;
    }
    assert groupids[..] == Start(n).ids;
    var minDistance := FindLeast(n, d);
    least := minDistance;
    if minDistance == FLT_MAX {
      return 0, least;
    }
    nbgroups := SearchGroups(n, d, minDistance, accuracy, groupids);
  }

  lemma GroupsStep(near: Pairs, s: Search, i: nat)
    requires s.next > 0 && i < |s.ids|
    ensures
      var alone := s.ids[i := s.next];
      var group := Close(near, alone, s.next, i);
      Groups(near, s, i)
      == Groups(near, if s.ids[i] != 0 then s else if group == alone then s.(skipped := s.skipped + 1)
                      else Search(group, s.next + 1, s.skipped), i + 1)
  {
    hide Close;
  }

  lemma GroupsEnd(near: Pairs, s: Search, i: nat)
    requires s.next > 0 && i >= |s.ids|
    ensures Groups(near, s, i) == s
  {
  }
}
