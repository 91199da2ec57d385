/** Grouping groups (src/distances.c): the distances between groups are averages over their
    objects, and the groups are grouped again until nothing more is found. */
module GroupLevels {
  import opened MatrixCompaction
  import opened GroupSearch
  import opened GroupClasses

  // ---- Averages ----

  ghost function RowSum(d: seq<real>, n: nat, ids: seq<nat>, i: nat, b: nat, j: nat): real
    requires Square(d, n) && |ids| == n && i < n && j <= n
  {
    if j == 0 then 0.0 else RowSum(d, n, ids, i, b, j - 1) + if ids[j - 1] == b then Distance(d, n, i, j - 1) else 0.0
  }

  /** The sum of the distances from the members of group `a` among the first `i` objects to the
      members of group `b`. */
  ghost function PairSum(d: seq<real>, n: nat, ids: seq<nat>, a: nat, b: nat, i: nat): real
    requires Square(d, n) && |ids| == n && i <= n
  {
    if i == 0 then 0.0 else PairSum(d, n, ids, a, b, i - 1) + if ids[i - 1] == a then RowSum(d, n, ids, i - 1, b, n)
        else 0.0
  }

  ghost function Size(ids: seq<nat>, g: nat, n: nat): nat
    requires n <= |ids|
  {
    if n == 0 then 0 else Size(ids, g, n - 1) + if ids[n - 1] == g then 1 else 0
  }

  ghost function Average(d: seq<real>, n: nat, ids: seq<nat>, a: nat, b: nat): real
    requires Square(d, n) && |ids| == n
    requires Size(ids, a, n) > 0 && Size(ids, b, n) > 0
  {
    Quotient(PairSum(d, n, ids, a, b, n), Size(ids, a, n), Size(ids, b, n))
  }

  function Quotient(sum: real, p: nat, q: nat): real
    requires p > 0 && q > 0
  {
    assert p * q > 0;
    sum / (p * q) as real
  }

  /** Group `a + 1` has row and column `a` in the new matrix. */
  ghost predicate Averages(d: seq<real>, n: nat, ids: seq<nat>, nb: nat, more: seq<real>)
    requires Square(d, n) && |ids| == n
  {
    && Square(more, nb) && (forall g :: 1 <= g <= nb ==> Size(ids, g, n) > 0)
    && (forall a: nat, b: nat :: a < nb && b < nb ==> Distance(more, nb, a, b) == Average(d, n, ids, a + 1, b + 1))
  }

  /** `GROUP_DISTANCE(a, b) = x`. */
  method SetCell(g: array<real>, nb: nat, a: nat, b: nat, x: real)
    requires Square(g[..], nb) && a < nb && b < nb
    modifies g
    ensures Square(g[..], nb)
    ensures forall r: nat, c: nat :: r < nb && c < nb ==>
      Distance(g[..], nb, r, c) == if r == a && c == b then x else Distance(old(g[..]), nb, r, c)
  {
    PosInside(nb, a, b);
    ghost var before := g[..];
    g[Pos(nb, a, b)] := x;
    forall r: nat, c: nat | r < nb && c < nb
      ensures Distance(g[..], nb, r, c) == if r == a && c == b then x else Distance(before, nb, r, c)
    {
      PosInside(nb, r, c);
      PosOrder(nb, r, c, a, b);
      PosOrder(nb, a, b, r, c);
      hide Pos;
    }
  }

  method GetCell(g: array<real>, nb: nat, a: nat, b: nat) returns (x: real)
    requires Square(g[..], nb) && a < nb && b < nb
    ensures x == Distance(g[..], nb, a, b)
  {
    PosInside(nb, a, b);
    x := g[Pos(nb, a, b)];
  }

  /** The sums while row `i` is added, up to column `j`. */
  ghost predicate Summed(d: seq<real>, n: nat, ids: seq<nat>, nb: nat, g: seq<real>, i: nat, j: nat) {
    && Square(d, n) && |ids| == n && i <= n && j <= n && (i == n ==> j == 0) && Square(g, nb)
    && (forall a: nat, b: nat :: a < nb && b < nb ==>
          Distance(g, nb, a, b) == PairSum(d, n, ids, a + 1, b + 1, i)
            + if i < n && ids[i] == a + 1 then RowSum(d, n, ids, i, b + 1, j) else 0.0)
  }

  /** Adding up the distances between the members of groups. */
  method SumDistances(n: nat, d: array<real>, groupids: array<nat>, nb: nat) returns (g: array<real>)
    requires Square(d[..], n) && groupids.Length == n && forall k :: 0 <= k < n ==> groupids[k] <= nb
    ensures fresh(g) && Summed(d[..], n, groupids[..], nb, g[..], n, 0)
  {
    ghost var ids := groupids[..];
    g := new real[Pos(nb, nb, 0)](_ => 0.0);
    SumsStart(d[..], n, ids, nb, g[..]);
    hide Summed;
    for i := 0 to n
      invariant Summed(d[..], n, ids, nb, g[..], i, 0)
    {
      if groupids[i] != 0 {
        for j := 0 to n
          invariant Summed(d[..], n, ids, nb, g[..], i, j)
        {
          if groupids[j] != 0 {
            AddDistance(n, d, groupids, nb, g, i, j);
          } else {
            SumsSkip(d[..], n, ids, nb, g[..], i, j);
          }
        }
      }
      SumsNextRow(d[..], n, ids, nb, g[..], i);
    }
  }

  lemma SumsStart(d: seq<real>, n: nat, ids: seq<nat>, nb: nat, g: seq<real>)
    requires Square(d, n) && |ids| == n && Square(g, nb) && forall k :: 0 <= k < |g| ==> g[k] == 0.0
    ensures Summed(d, n, ids, nb, g, 0, 0)
  {
    hide Pos;
    forall a: nat, b: nat | a < nb && b < nb
      ensures Distance(g, nb, a, b) == 0.0
    {
      PosInside(nb, a, b);
    }
  }

  lemma SumsSkip(d: seq<real>, n: nat, ids: seq<nat>, nb: nat, g: seq<real>, i: nat, j: nat)
    requires Summed(d, n, ids, nb, g, i, j) && i < n && j < n && ids[j] == 0
    ensures Summed(d, n, ids, nb, g, i, j + 1)
  {
    hide Distance;
    assert forall b: nat :: b > 0 ==> RowSum(d, n, ids, i, b, j + 1) == RowSum(d, n, ids, i, b, j);
  }

  /** A row has been added, or its object has no group. */
  lemma SumsNextRow(d: seq<real>, n: nat, ids: seq<nat>, nb: nat, g: seq<real>, i: nat)
    requires i < n && Square(d, n) && |ids| == n
    requires Summed(d, n, ids, nb, g, i, if ids[i] != 0 then n else 0)
    ensures Summed(d, n, ids, nb, g, i + 1, 0)
  {
    hide Distance;
  }

  method AddDistance(n: nat, d: array<real>, groupids: array<nat>, nb: nat, g: array<real>, i: nat, j: nat)
    requires d != g && Square(d[..], n) && groupids.Length == n && i < n && j < n
    requires 1 <= groupids[i] <= nb && 1 <= groupids[j] <= nb
    requires Summed(d[..], n, groupids[..], nb, g[..], i, j)
    modifies g
    ensures Summed(d[..], n, groupids[..], nb, g[..], i, j + 1)
  {
    hide Pos, Distance, PairSum;
    ghost var ids := groupids[..];
    var x := GetCell(d, n, i, j);
    var sum := GetCell(g, nb, groupids[i] - 1, groupids[j] - 1);
    SetCell(g, nb, groupids[i] - 1, groupids[j] - 1, sum + x);
    assert forall b: nat :: RowSum(d[..], n, ids, i, b, j + 1)
                            == RowSum(d[..], n, ids, i, b, j) + if ids[j] == b then Distance(d[..], n, i, j) else 0.0;
  }

  /** Counting the members of every group. */
  method GroupSizes(n: nat, groupids: array<nat>, nb: nat) returns (sizes: array<nat>)
    requires groupids.Length == n
    ensures fresh(sizes) && sizes.Length == nb
    ensures forall i :: 0 <= i < nb ==> sizes[i] == Size(groupids[..], i + 1, n)
  {
    sizes := new nat[nb](_ => 0);
    for i := 0 to nb
      invariant forall k :: 0 <= k < i ==> sizes[k] == Size(groupids[..], k + 1, n)
      invariant forall k :: i <= k < nb ==> sizes[k] == 0
    {
      for j := 0 to n
        invariant forall k :: 0 <= k < i ==> sizes[k] == Size(groupids[..], k + 1, n)
        invariant forall k :: i < k < nb ==> sizes[k] == 0
        invariant sizes[i] == Size(groupids[..], i + 1, j)
      {
        if groupids[j] == i + 1 {
          sizes[i] := sizes[i] + 1;
        }
      }
    }
  }

  /** Some of the sums have been divided. */
  ghost predicate Divided(d: seq<real>, n: nat, ids: seq<nat>, nb: nat, g: seq<real>, i: nat, j: nat) {
    && Square(d, n) && |ids| == n && Square(g, nb) && (forall x :: 1 <= x <= nb ==> Size(ids, x, n) > 0)
    && (forall a: nat, b: nat :: a < nb && b < nb ==>
          Distance(g, nb, a, b) == if a < i || (a == i && b < j) then Average(d, n, ids, a + 1, b + 1)
                                   else PairSum(d, n, ids, a + 1, b + 1, n))
  }

  /** The averaged matrix of the groups. */
  method Factorize(n: nat, d: array<real>, groupids: array<nat>, nb: nat) returns (g: array<real>)
    requires Square(d[..], n) && groupids.Length == n && forall k :: 0 <= k < n ==> groupids[k] <= nb
    requires forall x :: 1 <= x <= nb ==> Size(groupids[..], x, n) > 0
    ensures fresh(g) && Averages(d[..], n, groupids[..], nb, g[..])
  {
    ghost var ids := groupids[..];
    var sizes := GroupSizes(n, groupids, nb);
    g := SumDistances(n, d, groupids, nb);
    assert Divided(d[..], n, ids, nb, g[..], 0, 0);
    hide Divided, Summed, Averages, Size, Square;
    for i := 0 to nb
      invariant Divided(d[..], n, ids, nb, g[..], i, 0)
      invariant forall k :: 0 <= k < nb ==> sizes[k] == Size(ids, k + 1, n)
    {
      for j := 0 to nb
        invariant Divided(d[..], n, ids, nb, g[..], i, j)
        invariant forall k :: 0 <= k < nb ==> sizes[k] == Size(ids, k + 1, n)
      {
        DivideCell(n, d, ids, nb, g, sizes[i], sizes[j], i, j);
      }
      DividedRow(d[..], n, ids, nb, g[..], i);
    }
    DividedAll(d[..], n, ids, nb, g[..]);
  }

  method DivideCell(n: nat, ghost d: array<real>, ghost ids: seq<nat>, nb: nat, g: array<real>, p: nat, q: nat,
      i: nat, j: nat)
    requires d != g && i < nb && j < nb && Divided(d[..], n, ids, nb, g[..], i, j)
    requires p == Size(ids, i + 1, n) && q == Size(ids, j + 1, n)
    modifies g
    ensures Divided(d[..], n, ids, nb, g[..], i, j + 1)
  {
    hide Distance, PairSum, Quotient, Size, Pos;
    var sum := GetCell(g, nb, i, j);
    SetCell(g, nb, i, j, Quotient(sum, p, q));
  }

  lemma DividedRow(d: seq<real>, n: nat, ids: seq<nat>, nb: nat, g: seq<real>, i: nat)
    requires Divided(d, n, ids, nb, g, i, nb)
    ensures Divided(d, n, ids, nb, g, i + 1, 0)
  {
    hide Distance, PairSum, Quotient, Size, Pos;
  }

  lemma DividedAll(d: seq<real>, n: nat, ids: seq<nat>, nb: nat, g: seq<real>)
    requires Divided(d, n, ids, nb, g, nb, 0)
    ensures Averages(d, n, ids, nb, g)
  {
    hide Distance, PairSum, Quotient, Size, Pos;
  }

  // ---- Averages conserve what they stand for ----

  ghost function GroupedRow(d: seq<real>, n: nat, ids: seq<nat>, i: nat, j: nat): real
    requires Square(d, n) && |ids| == n && i < n && j <= n
  {
    if j == 0 then 0.0 else GroupedRow(d, n, ids, i, j - 1) + if ids[j - 1] != 0 then Distance(d, n, i, j - 1) else 0.0
  }

  /** The sum of all distances between objects that have groups. */
  ghost function GroupedSum(d: seq<real>, n: nat, ids: seq<nat>, i: nat): real
    requires Square(d, n) && |ids| == n && i <= n
  {
    if i == 0 then 0.0 else GroupedSum(d, n, ids, i - 1) + if ids[i - 1] != 0 then GroupedRow(d, n, ids, i - 1, n)
        else 0.0
  }

  /** The average between two groups, counted once for every pair of their members. */
  ghost function Weighted(d: seq<real>, n: nat, ids: seq<nat>, a: nat, b: nat): real
    requires Square(d, n) && |ids| == n && Size(ids, a, n) > 0 && Size(ids, b, n) > 0
  {
    Average(d, n, ids, a, b) * (Size(ids, a, n) * Size(ids, b, n)) as real
  }

  ghost function WeightedRow(d: seq<real>, n: nat, ids: seq<nat>, a: nat, nb: nat): real
    requires Square(d, n) && |ids| == n && Size(ids, a, n) > 0 && forall g :: 1 <= g <= nb ==> Size(ids, g, n) > 0
  {
    if nb == 0 then 0.0 else WeightedRow(d, n, ids, a, nb - 1) + Weighted(d, n, ids, a, nb)
  }

  ghost function WeightedSum(d: seq<real>, n: nat, ids: seq<nat>, m: nat, nb: nat): real
    requires Square(d, n) && |ids| == n && m <= nb && forall g :: 1 <= g <= nb ==> Size(ids, g, n) > 0
  {
    if m == 0 then 0.0 else WeightedSum(d, n, ids, m - 1, nb) + WeightedRow(d, n, ids, m, nb)
  }

  lemma WeightedIsSum(d: seq<real>, n: nat, ids: seq<nat>, a: nat, b: nat)
    requires Square(d, n) && |ids| == n && Size(ids, a, n) > 0 && Size(ids, b, n) > 0
    ensures Weighted(d, n, ids, a, b) == PairSum(d, n, ids, a, b, n)
  {
    hide PairSum, Size;
    QuotientBack(PairSum(d, n, ids, a, b, n), Size(ids, a, n), Size(ids, b, n));
  }

  lemma QuotientBack(sum: real, p: nat, q: nat)
    requires p > 0 && q > 0
    ensures Quotient(sum, p, q) * (p * q) as real == sum
  {
    assert p * q > 0;
  }

  /** The sum over `b` from 1 to `nb` of a row's sums. */
  ghost function RowSums(d: seq<real>, n: nat, ids: seq<nat>, i: nat, nb: nat, j: nat): real
    requires Square(d, n) && |ids| == n && i < n && j <= n
  {
    if nb == 0 then 0.0 else RowSums(d, n, ids, i, nb - 1, j) + RowSum(d, n, ids, i, nb, j)
  }

  lemma {:induction false} RowSumsStep(d: seq<real>, n: nat, ids: seq<nat>, i: nat, nb: nat, j: nat)
    requires Square(d, n) && |ids| == n && i < n && j < n
    ensures RowSums(d, n, ids, i, nb, j + 1)
            == RowSums(d, n, ids, i, nb, j) + if 1 <= ids[j] <= nb then Distance(d, n, i, j) else 0.0
  {
    hide Distance;
    if nb > 0 {
      RowSumsStep(d, n, ids, i, nb - 1, j);
    }
  }

  lemma {:induction false} RowSumsStart(d: seq<real>, n: nat, ids: seq<nat>, i: nat, nb: nat)
    requires Square(d, n) && |ids| == n && i < n
    ensures RowSums(d, n, ids, i, nb, 0) == 0.0
  {
    if nb > 0 {
      RowSumsStart(d, n, ids, i, nb - 1);
    }
  }

  lemma {:induction false} RowSumsAll(d: seq<real>, n: nat, ids: seq<nat>, i: nat, nb: nat, j: nat)
    requires Square(d, n) && |ids| == n && i < n && j <= n && forall k :: 0 <= k < n ==> ids[k] <= nb
    ensures RowSums(d, n, ids, i, nb, j) == GroupedRow(d, n, ids, i, j)
  {
    hide Distance, RowSums;
    if j == 0 {
      RowSumsStart(d, n, ids, i, nb);
    } else {
      RowSumsAll(d, n, ids, i, nb, j - 1);
      RowSumsStep(d, n, ids, i, nb, j - 1);
    }
  }

  ghost function PairRow(d: seq<real>, n: nat, ids: seq<nat>, a: nat, nb: nat, i: nat): real
    requires Square(d, n) && |ids| == n && i <= n
  {
    if nb == 0 then 0.0 else PairRow(d, n, ids, a, nb - 1, i) + PairSum(d, n, ids, a, nb, i)
  }

  ghost function PairSums(d: seq<real>, n: nat, ids: seq<nat>, m: nat, nb: nat, i: nat): real
    requires Square(d, n) && |ids| == n && i <= n
  {
    if m == 0 then 0.0 else PairSums(d, n, ids, m - 1, nb, i) + PairRow(d, n, ids, m, nb, i)
  }

  lemma {:induction false} PairRowStep(d: seq<real>, n: nat, ids: seq<nat>, a: nat, nb: nat, i: nat)
    requires Square(d, n) && |ids| == n && i < n
    ensures PairRow(d, n, ids, a, nb, i + 1)
            == PairRow(d, n, ids, a, nb, i) + if ids[i] == a then RowSums(d, n, ids, i, nb, n) else 0.0
    ensures PairRow(d, n, ids, a, nb, 0) == 0.0
  {
    hide RowSum;
    if nb > 0 {
      PairRowStep(d, n, ids, a, nb - 1, i);
    }
  }

  lemma {:induction false} PairSumsStep(d: seq<real>, n: nat, ids: seq<nat>, m: nat, nb: nat, i: nat)
    requires Square(d, n) && |ids| == n && i < n
    ensures PairSums(d, n, ids, m, nb, i + 1)
            == PairSums(d, n, ids, m, nb, i) + if 1 <= ids[i] <= m then RowSums(d, n, ids, i, nb, n) else 0.0
    ensures PairSums(d, n, ids, m, nb, 0) == 0.0
  {
    hide RowSums, PairRow;
    if m > 0 {
      PairSumsStep(d, n, ids, m - 1, nb, i);
      PairRowStep(d, n, ids, m, nb, i);
    }
  }

  lemma {:induction false} PairSumsAll(d: seq<real>, n: nat, ids: seq<nat>, nb: nat, i: nat)
    requires Square(d, n) && |ids| == n && 0 < i <= n && forall k :: 0 <= k < n ==> ids[k] <= nb
    ensures PairSums(d, n, ids, nb, nb, i) == GroupedSum(d, n, ids, i)
  {
    hide RowSums, PairSums, GroupedRow;
    PairSumsStep(d, n, ids, nb, nb, i - 1);
    RowSumsAll(d, n, ids, i - 1, nb, n);
    if i > 1 {
      PairSumsAll(d, n, ids, nb, i - 1);
    }
  }

  lemma {:induction false} WeightedRowIsPairs(d: seq<real>, n: nat, ids: seq<nat>, a: nat, nb: nat)
    requires Square(d, n) && |ids| == n && Size(ids, a, n) > 0 && forall g :: 1 <= g <= nb ==> Size(ids, g, n) > 0
    ensures WeightedRow(d, n, ids, a, nb) == PairRow(d, n, ids, a, nb, n)
  {
    hide PairSum, Weighted, Size;
    if nb > 0 {
      WeightedIsSum(d, n, ids, a, nb);
      WeightedRowIsPairs(d, n, ids, a, nb - 1);
    }
  }

  lemma {:induction false} WeightedIsPairs(d: seq<real>, n: nat, ids: seq<nat>, m: nat, nb: nat)
    requires Square(d, n) && |ids| == n && m <= nb && forall g :: 1 <= g <= nb ==> Size(ids, g, n) > 0
    ensures WeightedSum(d, n, ids, m, nb) == PairSums(d, n, ids, m, nb, n)
  {
    hide PairRow, WeightedRow, Size;
    if m > 0 {
      WeightedRowIsPairs(d, n, ids, m, nb);
      WeightedIsPairs(d, n, ids, m - 1, nb);
    }
  }

  /** The averages of all pairs of groups, counted once for every pair of members, add up to the
      distances of all objects that have groups. */
  lemma AveragesConserve(d: seq<real>, n: nat, ids: seq<nat>, nb: nat)
    requires Square(d, n) && |ids| == n > 0 && forall k :: 0 <= k < n ==> ids[k] <= nb
    requires forall g :: 1 <= g <= nb ==> Size(ids, g, n) > 0
    ensures WeightedSum(d, n, ids, nb, nb) == GroupedSum(d, n, ids, n)
  {
    WeightedIsPairs(d, n, ids, nb, nb);
    PairSumsAll(d, n, ids, nb, n);
  }

  /** Two groups of two objects each: the average of the four distances from the first to the second. */
  lemma AverageOfFour(d: seq<real>)
    requires Square(d, 4)
    ensures Size([1, 1, 2, 2], 1, 4) == 2 && Size([1, 1, 2, 2], 2, 4) == 2
    ensures Average(d, 4, [1, 1, 2, 2], 1, 2)
      == (Distance(d, 4, 0, 2) + Distance(d, 4, 0, 3) + Distance(d, 4, 1, 2) + Distance(d, 4, 1, 3)) / 4.0
  {
    hide Square, Distance;
    var ids := [1, 1, 2, 2];
    assert Size(ids, 1, 1) == 1 && Size(ids, 2, 1) == 0;
    assert Size(ids, 1, 3) == 2 && Size(ids, 2, 3) == 1;
    RowOfTwo(d, 0);
    RowOfTwo(d, 1);
    assert PairSum(d, 4, ids, 1, 2, 1) == RowSum(d, 4, ids, 0, 2, 4);
    assert PairSum(d, 4, ids, 1, 2, 3) == RowSum(d, 4, ids, 0, 2, 4) + RowSum(d, 4, ids, 1, 2, 4);
  }

  lemma RowOfTwo(d: seq<real>, i: nat)
    requires Square(d, 4) && i < 4
    ensures RowSum(d, 4, [1, 1, 2, 2], i, 2, 4) == Distance(d, 4, i, 2) + Distance(d, 4, i, 3)
  {
    hide Square, Distance;
    assert RowSum(d, 4, [1, 1, 2, 2], i, 2, 1) == 0.0;
    assert RowSum(d, 4, [1, 1, 2, 2], i, 2, 3) == Distance(d, 4, i, 2);
  }
}
