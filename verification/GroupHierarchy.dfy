/** Grouping as a whole (src/distances.c): level after level of groups, and what comes out for the
    matrices that describe x groups of y groups of z objects. */
module GroupHierarchy {
  import opened MatrixCompaction
  import opened GroupSearch
  import opened GroupClasses
  import opened GroupLevels
  import opened Products

  // ---- The smallest distance is well defined ----

  lemma LeastUnique(d: seq<real>, n: nat, a: real, b: real)
    requires Square(d, n) && IsLeast(d, n, a) && IsLeast(d, n, b)
    ensures a == b
  {
    hide Distance, Square;
  }

  // ---- One level ----

  datatype Grouping = NoGroups | Grouped(ids: seq<nat>, nb: nat)

  /** What the search finds with one accuracy. */
  ghost predicate Finds(d: seq<real>, n: nat, accuracy: real, r: Grouping)
    requires Square(d, n)
  {
    exists least :: IsLeast(d, n, least) && r == FoundWith(d, n, least, accuracy)
  }

  ghost function FoundWith(d: seq<real>, n: nat, least: real, accuracy: real): Grouping
    requires Square(d, n)
  {
    if least == FLT_MAX then NoGroups else
    var found := Groups(Near(d, n, least, accuracy), Start(n), 0);
    if Count(found) == 0 then NoGroups else Grouped(found.ids, Count(found))
  }

  /** `hwloc__check_grouping_matrix`: symmetric, and every object closest to itself. */
  ghost predicate Usable(d: seq<real>, n: nat, accuracy: real)
    requires Square(d, n)
  {
    forall i: nat, j: nat :: i < j < n ==>
      && CompareDistances(Distance(d, n, i, j), Distance(d, n, j, i), accuracy) == 0
      && CompareDistances(Distance(d, n, i, j), Distance(d, n, i, i), accuracy) > 0
  }

  method CheckMatrix(n: nat, d: array<real>, accuracy: real) returns (ok: bool)
    requires Square(d[..], n)
    ensures ok <==> Usable(d[..], n, accuracy)
  {
    hide Distance, CompareDistances;
    for i := 0 to n
      invariant forall k: nat, l: nat :: k < i && k < l < n ==>
        && CompareDistances(Distance(d[..], n, k, l), Distance(d[..], n, l, k), accuracy) == 0
        && CompareDistances(Distance(d[..], n, k, l), Distance(d[..], n, k, k), accuracy) > 0
    {
      for j := i + 1 to n
        invariant forall l: nat :: i < l < j ==>
          && CompareDistances(Distance(d[..], n, i, l), Distance(d[..], n, l, i), accuracy) == 0
          && CompareDistances(Distance(d[..], n, i, l), Distance(d[..], n, i, i), accuracy) > 0
      {
        var there := GetCell(d, n, i, j);
        var back := GetCell(d, n, j, i);
        var self := GetCell(d, n, i, i);
        if CompareDistances(there, back, accuracy) != 0 || CompareDistances(there, self, accuracy) <= 0 {
          return false;
        }
      }
    }
    return true;
  }

  /** The first accuracy, from number `k` on, that gives groups. */
  ghost predicate FirstGrouping(d: seq<real>, n: nat, accuracies: seq<real>, needcheck: bool, k: nat, r: Grouping)
    requires Square(d, n)
    decreases |accuracies| - k
  {
    if k >= |accuracies| then r == NoGroups
    else if needcheck && !Usable(d, n, accuracies[k]) then FirstGrouping(d, n, accuracies, needcheck, k + 1, r)
    else if Finds(d, n, accuracies[k], NoGroups) then FirstGrouping(d, n, accuracies, needcheck, k + 1, r)
    else Finds(d, n, accuracies[k], r)
  }

  lemma FindsOnce(d: seq<real>, n: nat, accuracy: real, r: Grouping, q: Grouping)
    requires Square(d, n) && Finds(d, n, accuracy, r) && Finds(d, n, accuracy, q)
    ensures r == q
  {
    hide IsLeast, FoundWith, Square;
    var a :| IsLeast(d, n, a) && r == FoundWith(d, n, a, accuracy);
    var b :| IsLeast(d, n, b) && q == FoundWith(d, n, b, accuracy);
    LeastUnique(d, n, a, b);
  }

  /** The loop over accuracies. */
  method TryAccuracies(n: nat, d: array<real>, accuracies: seq<real>, needcheck: bool, groupids: array<nat>)
      returns (nbgroups: nat)
    requires Square(d[..], n) && groupids.Length == n
    modifies groupids
    ensures FirstGrouping(d[..], n, accuracies, needcheck, 0, if nbgroups == 0 then NoGroups
        else Grouped(groupids[..], nbgroups))
  {
    hide Finds, Usable, Square;
    nbgroups := 0;
    for i := 0 to |accuracies|
      invariant nbgroups == 0 && forall r ::
        FirstGrouping(d[..], n, accuracies, needcheck, i, r) ==> FirstGrouping(d[..], n, accuracies, needcheck, 0, r)
    {
      var skip := false;
      if needcheck {
        var ok := CheckMatrix(n, d, accuracies[i]);
        skip := !ok;
      }
      if !skip {
        nbgroups := FindOnce(n, d, accuracies[i], groupids);
        if nbgroups != 0 {
          return;
        }
      }
    }
  }

  method FindOnce(n: nat, d: array<real>, accuracy: real, groupids: array<nat>) returns (nbgroups: nat)
    requires Square(d[..], n) && groupids.Length == n
    modifies groupids
    ensures nbgroups == 0 ==> Finds(d[..], n, accuracy, NoGroups)
    ensures nbgroups != 0 ==>
        Finds(d[..], n, accuracy, Grouped(groupids[..], nbgroups))
        && !Finds(d[..], n, accuracy, NoGroups)
  {
    ghost var least;
    nbgroups, least := FindGroups(n, d, accuracy, groupids);
    hide IsLeast, Groups, Near, Square, Finds;
    ghost var r := if nbgroups == 0 then NoGroups else Grouped(groupids[..], nbgroups);
    assert r == FoundWith(d[..], n, least, accuracy);
    FindsThis(d[..], n, accuracy, least, r);
    if nbgroups != 0 && Finds(d[..], n, accuracy, NoGroups) {
      FindsOnce(d[..], n, accuracy, r, NoGroups);
      assert false;
    }
  }

  lemma FindsThis(d: seq<real>, n: nat, accuracy: real, least: real, r: Grouping)
    requires Square(d, n) && IsLeast(d, n, least) && r == FoundWith(d, n, least, accuracy)
    ensures Finds(d, n, accuracy, r)
  {
  }

  lemma {:induction false} SizePositive(ids: seq<nat>, g: nat, k: nat, n: nat)
    requires k < n <= |ids| && ids[k] == g
    ensures Size(ids, g, n) > 0
  {
    if k < n - 1 {
      SizePositive(ids, g, k, n - 1);
    }
  }

  /** Found groups are fewer than objects, and none is empty. */
  lemma FoundGroups(d: seq<real>, n: nat, accuracies: seq<real>, needcheck: bool, k: nat, r: Grouping)
    requires Square(d, n) && FirstGrouping(d, n, accuracies, needcheck, k, r) && r.Grouped?
    ensures |r.ids| == n && 0 < r.nb && 2 * r.nb <= n
    ensures forall i :: 0 <= i < n ==> r.ids[i] <= r.nb
    ensures forall g :: 1 <= g <= r.nb ==> Size(r.ids, g, n) > 0
    decreases |accuracies| - k
  {
    hide Usable, Square, Near, IsLeast, Groups;
    if k < |accuracies| {
      if (needcheck && !Usable(d, n, accuracies[k])) || Finds(d, n, accuracies[k], NoGroups) {
        FoundGroups(d, n, accuracies, needcheck, k + 1, r);
      } else {
        var least :| IsLeast(d, n, least) && r == FoundWith(d, n, least, accuracies[k]);
        var near := Near(d, n, least, accuracies[k]);
        NumberingIsContiguous(near, n);
        forall g | 1 <= g <= r.nb
          ensures Size(r.ids, g, n) > 0
        {
          assert TwoMembers(r.ids, g);
          var a, b :| 0 <= a < b < |r.ids| && r.ids[a] == g && r.ids[b] == g;
          SizePositive(r.ids, g, a, n);
        }
      }
    }
  }

  // ---- All levels ----

  /** The groups of every level, from the lowest on. */
  ghost predicate Levels(d: seq<real>, n: nat, accuracies: seq<real>, needcheck: bool, levels: seq<seq<nat>>)
    requires Square(d, n)
    decreases |levels|
  {
    if n <= 2 then levels == []
    else if levels == [] then FirstGrouping(d, n, accuracies, needcheck, 0, NoGroups)
    else
      exists nb: nat, more: seq<real> ::
        NextLevel(d, n, accuracies, needcheck, levels[0], nb, more) && Levels(more, nb, accuracies, false, levels[1..])
  }

  ghost predicate NextLevel(d: seq<real>, n: nat, accuracies: seq<real>, needcheck: bool, ids: seq<nat>, nb: nat,
      more: seq<real>)
    requires Square(d, n)
  {
    && |ids| == n && FirstGrouping(d, n, accuracies, needcheck, 0, Grouped(ids, nb))
    && Square(more, nb) && Averages(d, n, ids, nb, more)
  }

  /** `hwloc__groups_by_distances`: the groups that are found, without inserting their objects. It
      ends because groups are at most half as many as what they group. */
  method GroupsByDistances(n: nat, d: array<real>, accuracies: seq<real>, needcheck: bool)
      returns (levels: seq<seq<nat>>)
    requires Square(d[..], n)
    ensures Levels(d[..], n, accuracies, needcheck, levels)
    decreases n
  {
    if n <= 2 {
      return [];
    }
    var groupids := new nat[n];
    var nbgroups := TryAccuracies(n, d, accuracies, needcheck, groupids);
    if nbgroups == 0 {
      return [];
    }
    ghost var ids := groupids[..];
    FoundGroups(d[..], n, accuracies, needcheck, 0, Grouped(ids, nbgroups));
    hide FirstGrouping, Averages, Size;
    var groupdistances := Factorize(n, d, groupids, nbgroups);
    AveragesSquare(d[..], n, ids, nbgroups, groupdistances[..]);
    ghost var more := groupdistances[..];
    var upper := GroupsByDistances(nbgroups, groupdistances, accuracies, false);
    levels := [groupids[..]] + upper;
    assert levels[0] == ids && levels[1..] == upper;
    assert NextLevel(d[..], n, accuracies, needcheck, levels[0], nbgroups, more);
  }

  lemma AveragesSquare(d: seq<real>, n: nat, ids: seq<nat>, nb: nat, more: seq<real>)
    requires Square(d, n) && |ids| == n && Averages(d, n, ids, nb, more)
    ensures Square(more, nb)
  {
  }

  // ---- Matrices of x groups of y groups of z objects ----

  function Entry(i: nat, j: nat, y: nat, z: nat): real
    requires y > 0 && z > 0
  {
    if i == j then 1.0 else if i / z == j / z then 2.0 else if i / z / y == j / z / y then 4.0 else 8.0
  }

  ghost predicate Generated(d: seq<real>, n: nat, y: nat, z: nat)
    requires y > 0 && z > 0
  {
    Square(d, n) && forall i: nat, j: nat :: i < n && j < n ==> Distance(d, n, i, j) == Entry(i, j, y, z)
  }

  /** The generator of `hwloc_distances__set_from_string`, for a positive number of objects. */
  method GenerateMatrix(nbobjs: nat, x: nat, y: nat, z: nat) returns (ok: bool, d: array<real>)
    requires nbobjs > 0
    ensures ok <==> x * y * z == nbobjs
    ensures ok ==> y > 0 && z > 0 && Generated(d[..], nbobjs, y, z)
  {
    d := new real[Pos(nbobjs, nbobjs, 0)](_ => 0.0);
    if x * y * z != nbobjs {
      return false, d;
    }
    Factors(x, y, z);
    hide Pos, Entry;
    for i := 0 to nbobjs
      invariant Square(d[..], nbobjs)
      invariant forall k: nat, l: nat :: k < i && l < nbobjs ==> Distance(d[..], nbobjs, k, l) == Entry(k, l, y, z)
    {
      for j := 0 to nbobjs
        invariant Square(d[..], nbobjs)
        invariant forall k: nat, l: nat :: l < nbobjs && (k < i || (k == i && l < j)) ==>
          Distance(d[..], nbobjs, k, l) == Entry(k, l, y, z)
      {
        SetCell(d, nbobjs, i, j, Entry(i, j, y, z));
      }
    }
    ok := true;
  }

  lemma Factors(x: nat, y: nat, z: nat)
    requires x * y * z > 0
    ensures x > 0 && y > 0 && z > 0
  {
    assert x == 0 || y == 0 ==> x * y == 0;
  }

  /** Runs of `z` objects; the first `m` runs have their group. */
  ghost function Runs(n: nat, z: nat, m: nat): (ids: seq<nat>)
    requires z > 0
    ensures |ids| == n
  {
    seq(n, k requires 0 <= k => if k / z < m then k / z + 1 else 0)
  }

  /** Objects are at minimal distance of those of their run. */
  ghost predicate RunsApart(near: Pairs, n: nat, z: nat)
    requires z > 0
  {
    forall i: nat, j: nat :: i < n && j < n && i != j ==> ((i, j) in near <==> i / z == j / z)
  }

  ghost predicate WholeRuns(n: nat, z: nat, last: nat) {
    n == Times(last, z)
  }

  /** How runs follow one another. */
  lemma RunFacts(n: nat, z: nat, last: nat, i: nat)
    requires z >= 2 && WholeRuns(n, z, last) && i < n
    ensures i / z <= (i + 1) / z <= i / z + 1 && i / z < last && (i == 0 ==> i / z == 0)
    ensures i == 0 || (i - 1) / z != i / z ==> i + 1 < n && (i + 1) / z == i / z
    ensures i == n - 1 ==> i / z + 1 == last
  {
    var q, r := i / z, i % z;
    assert i == Times(q, z) + r && r < z;
    DivideBound(i, z, last);
    EndOfRun(n, z, last, i, q, r);
    if i > 0 && r > 0 {
      DivideUnique(i - 1, z, q, r - 1);
    }
    if i == 0 {
      DivideUnique(0, z, 0, 0);
    }
  }

  lemma EndOfRun(n: nat, z: nat, last: nat, i: nat, q: nat, r: nat)
    requires z >= 2 && WholeRuns(n, z, last) && i == Times(q, z) + r && r < z && q < last
    ensures (i + 1) / z == if r + 1 < z then q else q + 1
    ensures r + 1 < z ==> i + 1 < n
    ensures i == n - 1 ==> q + 1 == last
    ensures i == 0 ==> r == 0
  {
    hide Times;
    TimesStep(q, z);
    TimesMono(q + 1, last, z);
    if r + 1 < z {
      DivideUnique(i + 1, z, q, r + 1);
    } else {
      DivideUnique(i + 1, z, q + 1, 0);
    }
    if q + 1 < last {
      TimesStep(q + 1, z);
      TimesMono(q + 2, last, z);
    }
  }

  /** The search takes the first free run as a whole. */
  lemma RunGrouped(near: Pairs, n: nat, z: nat, m: nat, i: nat)
    requires z >= 2 && RunsApart(near, n, z) && i < n && i / z == m
    requires i + 1 < n && (i + 1) / z == m
    ensures
      var ids := Runs(n, z, m);
      var alone := ids[i := m + 1];
      Close(near, alone, m + 1, i) == Runs(n, z, m + 1) != alone
  {
    var ids := Runs(n, z, m);
    var alone := ids[i := m + 1];
    var group := Joined(near, alone, m + 1, i);
    assert group == Runs(n, z, m + 1);
    assert Closed(near, group, m + 1);
    CloseIsClass(near, alone, m + 1, i);
    assert group[i + 1] == m + 1 && alone[i + 1] == 0;
  }

  /** How many runs have their group when the search is at object `i`. */
  function Done(i: nat, z: nat): nat
    requires z > 0
  {
    if i == 0 then 0 else (i - 1) / z + 1
  }

  lemma {:induction false} RunsFound(near: Pairs, n: nat, z: nat, last: nat, i: nat)
    requires z >= 2 && RunsApart(near, n, z) && i <= n && WholeRuns(n, z, last)
    ensures Groups(near, Search(Runs(n, z, Done(i, z)), Done(i, z) + 1, 0), i) == Search(Runs(n, z, last), last + 1, 0)
    decreases n - i
  {
    hide RunsApart, WholeRuns, Close, Groups;
    var m := Done(i, z);
    var s := Search(Runs(n, z, m), m + 1, 0);
    if i == n {
      GroupsEnd(near, s, i);
      AllDone(n, z, last);
    } else {
      GroupsStep(near, s, i);
      RunFacts(n, z, last, i);
      if i > 0 {
        RunFacts(n, z, last, i - 1);
      }
      RunsFound(near, n, z, last, i + 1);
      if i / z < m {
        assert s.ids[i] != 0 && Done(i + 1, z) == m;
      } else {
        assert s.ids[i] == 0 && i / z == m && Done(i + 1, z) == m + 1;
        RunGrouped(near, n, z, m, i);
      }
    }
  }

  lemma AllDone(n: nat, z: nat, last: nat)
    requires z >= 2 && WholeRuns(n, z, last)
    ensures Done(n, z) == last
  {
    if n > 0 {
      RunFacts(n, z, last, n - 1);
    } else {
      TimesGrows(last, z);
    }
  }

  /** A matrix in which the objects of a run are at distance `c`, and others twice as far or more. */
  ghost predicate RunMatrix(d: seq<real>, n: nat, z: nat, c: real)
    requires z > 0
  {
    && Square(d, n) && 0.0 < c < FLT_MAX
    && (forall i: nat, j: nat :: i < n && j < n && i != j ==>
          if i / z == j / z then Distance(d, n, i, j) == c else Distance(d, n, i, j) >= 2.0 * c)
  }

  lemma FarApart(x: real, c: real, accuracy: real)
    requires 0.0 < c && accuracy <= 0.5
    ensures x >= 2.0 * c ==> CompareDistances(x, c, accuracy) > 0
    ensures x == c ==> CompareDistances(x, c, accuracy) == 0
  {
    if x >= 2.0 * c {
      assert x * accuracy <= x * 0.5;
    }
  }

  lemma RunsOfMatrix(d: seq<real>, n: nat, z: nat, c: real, last: nat, accuracy: real)
    requires z >= 2 && last >= 1 && WholeRuns(n, z, last) && RunMatrix(d, n, z, c) && accuracy <= 0.5
    ensures IsLeast(d, n, c)
    ensures Groups(Near(d, n, c, accuracy), Start(n), 0) == Search(Runs(n, z, last), last + 1, 0)
  {
    hide Distance, Square, CompareDistances, Groups;
    var near := Near(d, n, c, accuracy);
    Whole(n, z, last);
    RunFacts(n, z, last, 0);
    assert Distance(d, n, 0, 1) == c;
    forall i: nat, j: nat | i < n && j < n && i != j
      ensures (i, j) in near <==> i / z == j / z
    {
      FarApart(Distance(d, n, i, j), c, accuracy);
    }
    RunsFound(near, n, z, last, 0);
    assert Start(n).ids == Runs(n, z, 0);
    assert Start(n) == Search(Runs(n, z, 0), 1, 0);
  }

  lemma Whole(n: nat, z: nat, last: nat)
    requires z >= 2 && last >= 1 && WholeRuns(n, z, last)
    ensures n >= z && n >= 2 * last && (last >= 2 ==> n > 2)
  {
    assert last * z >= 1 * z;
    assert last * z >= last * 2;
  }

  /** Two or more runs: they are what the first accuracy finds. */
  lemma LevelOfRuns(d: seq<real>, n: nat, z: nat, c: real, last: nat, accuracies: seq<real>, needcheck: bool,
      r: Grouping)
    requires z >= 2 && last >= 2 && WholeRuns(n, z, last) && RunMatrix(d, n, z, c)
    requires accuracies != [] && accuracies[0] <= 0.5 && (needcheck ==> Usable(d, n, accuracies[0]))
    requires FirstGrouping(d, n, accuracies, needcheck, 0, r)
    ensures r == Grouped(Runs(n, z, last), last)
  {
    hide Usable, Groups, Near, IsLeast, Runs, RunMatrix, WholeRuns;
    RunsOfMatrix(d, n, z, c, last, accuracies[0]);
    var found := Grouped(Runs(n, z, last), last);
    MatrixFacts(d, n, z, c);
    FindsThis(d, n, accuracies[0], c, found);
    if Finds(d, n, accuracies[0], NoGroups) {
      FindsOnce(d, n, accuracies[0], NoGroups, found);
    } else {
      FindsOnce(d, n, accuracies[0], r, found);
    }
  }

  lemma MatrixFacts(d: seq<real>, n: nat, z: nat, c: real)
    requires z > 0 && RunMatrix(d, n, z, c)
    ensures Square(d, n) && c != FLT_MAX
  {
  }

  // ---- Averages of equal distances ----

  ghost predicate AllAt(d: seq<real>, n: nat, ids: seq<nat>, a: nat, b: nat, c: real) {
    && Square(d, n) && |ids| == n
    && (forall i: nat, j: nat :: i < n && j < n && ids[i] == a && ids[j] == b ==> Distance(d, n, i, j) == c)
  }

  function Scaled(c: real, k: nat): real {
    c * k as real
  }

  lemma ScaledStep(c: real, k: nat)
    ensures Scaled(c, k + 1) == Scaled(c, k) + c && Scaled(c, 0) == 0.0
  {
  }

  lemma {:induction false} RowOfEqual(d: seq<real>, n: nat, ids: seq<nat>, a: nat, b: nat, c: real, i: nat, j: nat)
    requires AllAt(d, n, ids, a, b, c) && i < n && j <= n && ids[i] == a
    ensures RowSum(d, n, ids, i, b, j) == Scaled(c, Size(ids, b, j))
  {
    hide Distance, Scaled;
    ScaledStep(c, if j == 0 then 0 else Size(ids, b, j - 1));
    if j > 0 {
      RowOfEqual(d, n, ids, a, b, c, i, j - 1);
    }
  }

  lemma {:induction false} PairsOfEqual(d: seq<real>, n: nat, ids: seq<nat>, a: nat, b: nat, c: real, i: nat)
    requires |ids| == n && AllAt(d, n, ids, a, b, c) && i <= n
    ensures PairSum(d, n, ids, a, b, i) == Scaled(Scaled(c, Size(ids, b, n)), Size(ids, a, i))
  {
    hide Distance, Scaled, RowSum, AllAt;
    ScaledStep(Scaled(c, Size(ids, b, n)), if i == 0 then 0 else Size(ids, a, i - 1));
    if i > 0 {
      PairsOfEqual(d, n, ids, a, b, c, i - 1);
      if ids[i - 1] == a {
        RowOfEqual(d, n, ids, a, b, c, i - 1, n);
      }
    }
  }

  lemma QuotientOfScaled(c: real, p: nat, q: nat)
    requires p > 0 && q > 0
    ensures Quotient(Scaled(Scaled(c, q), p), p, q) == c
  {
    assert p * q > 0;
    assert Scaled(Scaled(c, q), p) == c * (p * q) as real;
  }

  lemma AverageOfEqual(d: seq<real>, n: nat, ids: seq<nat>, a: nat, b: nat, c: real)
    requires AllAt(d, n, ids, a, b, c) && Size(ids, a, n) > 0 && Size(ids, b, n) > 0
    ensures Average(d, n, ids, a, b) == c
  {
    hide Quotient, Size, PairSum, Scaled, Distance;
    PairsOfEqual(d, n, ids, a, b, c, n);
    QuotientOfScaled(c, Size(ids, a, n), Size(ids, b, n));
  }

  // ---- The hierarchy comes back ----

  lemma GeneratedRuns(d: seq<real>, n: nat, y: nat, z: nat, accuracy: real)
    requires y >= 2 && z >= 2 && Generated(d, n, y, z) && accuracy <= 0.5
    ensures RunMatrix(d, n, z, 2.0) && Usable(d, n, accuracy)
  {
    hide Distance, Square, CompareDistances;
    forall i: nat, j: nat | i < j < n
      ensures CompareDistances(Distance(d, n, i, j), Distance(d, n, j, i), accuracy) == 0
      ensures CompareDistances(Distance(d, n, i, j), Distance(d, n, i, i), accuracy) > 0
    {
      FarApart(Distance(d, n, i, j), Distance(d, n, j, i), accuracy);
      FarApart(Distance(d, n, i, j), 1.0, accuracy);
    }
  }

  /** The averages between runs of `z` make a matrix of runs of `y`. */
  lemma AveragedRuns(d: seq<real>, n: nat, y: nat, z: nat, m: nat, more: seq<real>)
    requires y >= 2 && z >= 2 && Generated(d, n, y, z) && Averages(d, n, Runs(n, z, m), m, more)
    ensures RunMatrix(more, m, y, 4.0)
    ensures FarRuns(more, m, y)
  {
    hide Distance, Square, Size, Average;
    var ids := Runs(n, z, m);
    forall a: nat, b: nat | a < m && b < m && a != b
      ensures Distance(more, m, a, b) == if a / y == b / y then 4.0 else 8.0
    {
      var c := if a / y == b / y then 4.0 else 8.0;
      assert AllAt(d, n, ids, a + 1, b + 1, c);
      AverageOfEqual(d, n, ids, a + 1, b + 1, c);
    }
  }

  lemma AveragedAgain(d: seq<real>, m: nat, y: nat, x: nat, more: seq<real>)
    requires y >= 2 && Square(d, m) && Averages(d, m, Runs(m, y, x), x, more)
    requires FarRuns(d, m, y)
    ensures Uniform(more, x, 8.0)
  {
    hide Distance, Square, Size, Average;
    var ids := Runs(m, y, x);
    forall a: nat, b: nat | a < x && b < x && a != b
      ensures Distance(more, x, a, b) == 8.0
    {
      assert AllAt(d, m, ids, a + 1, b + 1, 8.0);
      AverageOfEqual(d, m, ids, a + 1, b + 1, 8.0);
    }
  }

  ghost predicate FarRuns(d: seq<real>, m: nat, y: nat)
    requires y > 0
  {
    Square(d, m) && forall a: nat, b: nat :: a < m && b < m && a / y != b / y ==> Distance(d, m, a, b) == 8.0
  }

  ghost predicate Uniform(d: seq<real>, n: nat, c: real) {
    Square(d, n) && forall a: nat, b: nat :: a < n && b < n && a != b ==> Distance(d, n, a, b) == c
  }

  /** One group of all objects is no group. */
  lemma {:induction false} UniformIsOneGroup(d: seq<real>, n: nat, accuracies: seq<real>, needcheck: bool, k: nat,
      r: Grouping)
    requires n >= 2 && Uniform(d, n, 8.0) && FirstGrouping(d, n, accuracies, needcheck, k, r)
    ensures r == NoGroups
    decreases |accuracies| - k
  {
    hide Usable, Finds, Uniform, Square;
    UniformSquare(d, n);
    if k < |accuracies| {
      UniformFinds(d, n, accuracies[k]);
      UniformIsOneGroup(d, n, accuracies, needcheck, k + 1, r);
    }
  }

  lemma UniformSquare(d: seq<real>, n: nat)
    requires Uniform(d, n, 8.0)
    ensures Square(d, n)
  {
  }

  lemma UniformFinds(d: seq<real>, n: nat, accuracy: real)
    requires n >= 2 && Uniform(d, n, 8.0)
    ensures Finds(d, n, accuracy, NoGroups)
  {
    hide Distance, Square, Groups;
    var near := Near(d, n, 8.0, accuracy);
    assert Distance(d, n, 0, 1) == 8.0;
    forall i: nat, j: nat | i < n && j < n && i != j
      ensures (i, j) in near <==> i / n == j / n
    {
      TimesOne(n);
      DivideUnique(i, n, 0, i);
      DivideUnique(j, n, 0, j);
      assert CompareDistances(8.0, 8.0, accuracy) == 0;
    }
    TimesOne(n);
    RunsFound(near, n, n, 1, 0);
    assert Start(n).ids == Runs(n, n, 0);
    assert Start(n) == Search(Runs(n, n, 0), 1, 0);
    assert IsLeast(d, n, 8.0);
    FindsThis(d, n, accuracy, 8.0, NoGroups);
  }

  /** The matrix of x groups of y groups of z objects gives exactly two levels: first x*y runs of z
      objects, then x runs of y groups. */
  lemma HierarchyRecovered(d: seq<real>, n: nat, x: nat, y: nat, z: nat, accuracies: seq<real>, needcheck: bool,
      levels: seq<seq<nat>>)
    requires x >= 2 && y >= 2 && z >= 2 && n == Times(Times(x, y), z) && Generated(d, n, y, z)
    requires accuracies != [] && accuracies[0] <= 0.5
    requires Levels(d, n, accuracies, needcheck, levels)
    ensures levels == [Runs(n, z, Times(x, y)), Runs(Times(x, y), y, x)]
  {
    hide FirstGrouping, Averages, Usable, Generated, Runs, RunMatrix, Square, Times, FarRuns;
    var m := Times(x, y);
    GeneratedRuns(d, n, y, z, accuracies[0]);
    TimesMono(2, x, y);
    Sizes(n, m, x, y, z);
    MatrixFacts(d, n, z, 2.0);
    if levels == [] {
      LevelOfRuns(d, n, z, 2.0, m, accuracies, needcheck, NoGroups);
    } else {
      var nb: nat, more: seq<real> :| NextLevel(d, n, accuracies, needcheck, levels[0], nb, more)
        && Levels(more, nb, accuracies, false, levels[1..]);
      LevelOfRuns(d, n, z, 2.0, m, accuracies, needcheck, Grouped(levels[0], nb));
      AveragedRuns(d, n, y, z, m, more);
      UpperLevel(more, m, x, y, accuracies, levels[1..]);
      assert levels == [levels[0]] + levels[1..];
    }
  }

  lemma Sizes(n: nat, m: nat, x: nat, y: nat, z: nat)
    requires x >= 2 && y >= 2 && z >= 2 && m == Times(x, y) && n == Times(m, z)
    ensures m >= 4 && n > 2 && WholeRuns(n, z, m) && WholeRuns(m, y, x)
  {
    hide Times;
    TimesMono(2, x, y);
    TimesStep(1, y);
    TimesOne(y);
    TimesGrows(m, z);
  }

  lemma UpperLevel(d: seq<real>, m: nat, x: nat, y: nat, accuracies: seq<real>, levels: seq<seq<nat>>)
    requires x >= 2 && y >= 2 && WholeRuns(m, y, x) && m > 2 && RunMatrix(d, m, y, 4.0)
    requires FarRuns(d, m, y)
    requires accuracies != [] && accuracies[0] <= 0.5 && Levels(d, m, accuracies, false, levels)
    ensures levels == [Runs(m, y, x)]
  {
    MatrixFacts(d, m, y, 4.0);
    hide FirstGrouping, Averages, Usable, Runs, RunMatrix, Square, WholeRuns, FarRuns, Uniform;
    if levels == [] {
      LevelOfRuns(d, m, y, 4.0, x, accuracies, false, NoGroups);
    } else {
      var nb: nat, more: seq<real> :| NextLevel(d, m, accuracies, false, levels[0], nb, more)
        && Levels(more, nb, accuracies, false, levels[1..]);
      LevelOfRuns(d, m, y, 4.0, x, accuracies, false, Grouped(levels[0], nb));
      AveragedAgain(d, m, y, x, more);
      TopLevel(more, x, accuracies, levels[1..]);
      assert levels == [levels[0]] + levels[1..];
    }
  }

  lemma TopLevel(d: seq<real>, x: nat, accuracies: seq<real>, levels: seq<seq<nat>>)
    requires x >= 2 && Square(d, x) && Uniform(d, x, 8.0) && Levels(d, x, accuracies, false, levels)
    ensures levels == []
  {
    hide FirstGrouping, Averages, Uniform, Square;
    if levels != [] {
      var nb: nat, more: seq<real> :| NextLevel(d, x, accuracies, false, levels[0], nb, more)
        && Levels(more, nb, accuracies, false, levels[1..]);
      UniformIsOneGroup(d, x, accuracies, false, 0, Grouped(levels[0], nb));
      assert false;
    }
  }

  /** The distances of two groups of two groups of two objects, as numbers. */
  lemma EightObjects(d: seq<real>, j: nat)
    requires Generated(d, 8, 2, 2) && j < 8
    ensures Distance(d, 8, 0, j) == [1.0, 2.0, 4.0, 4.0, 8.0, 8.0, 8.0, 8.0][j]
    ensures Distance(d, 8, 5, j) == [8.0, 8.0, 8.0, 8.0, 2.0, 1.0, 4.0, 4.0][j]
  {
    hide Square;
  }
}
