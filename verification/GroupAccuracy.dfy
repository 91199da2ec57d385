/** What the accuracy of a grouping means (src/distances.c), in numbers. */
module GroupAccuracy {
  import opened MatrixCompaction
  import opened GroupSearch
  import opened GroupClasses
  import opened GroupHierarchy

  // ---- Two distances ----

  /** The margin is a part of the first distance. */
  lemma MarginMeans(x: real, least: real, accuracy: real)
    requires x > 0.0 && accuracy > 0.0
    ensures CompareDistances(x, least, accuracy) == 0 <==> x * (1.0 - accuracy) < least < x * (1.0 + accuracy)
    ensures CompareDistances(x, least, accuracy) < 0 <==> least >= x * (1.0 + accuracy)
    ensures CompareDistances(x, least, accuracy) > 0 <==> least <= x * (1.0 - accuracy)
  {
    assert x * (1.0 - accuracy) == x - x * accuracy && x * (1.0 + accuracy) == x + x * accuracy;
    assert x * accuracy > 0.0;
  }

  /** A distance counts as minimal exactly when taking its own margin off it brings it below the
      smallest one. */
  lemma CountsAsMinimal(x: real, least: real, accuracy: real)
    requires 0.0 < accuracy < 1.0 && 0.0 < least <= x
    ensures CompareDistances(x, least, accuracy) == 0 <==> x * (1.0 - accuracy) < least
  {
    MarginMeans(x, least, accuracy);
    assert x * (1.0 + accuracy) == x + x * accuracy && x * accuracy > 0.0;
  }

  // ---- Matrices ----

  /** The pairs of different objects that count as closest. */
  lemma NearMeans(d: seq<real>, n: nat, least: real, accuracy: real, i: nat, j: nat)
    requires Square(d, n) && IsLeast(d, n, least) && 0.0 < accuracy < 1.0 && least > 0.0
    requires i < n && j < n && i != j
    ensures (i, j) in Near(d, n, least, accuracy) <==> Distance(d, n, i, j) * (1.0 - accuracy) < least
  {
    hide Distance, CompareDistances, Square;
    CountsAsMinimal(Distance(d, n, i, j), least, accuracy);
  }

  lemma ExactlyNear(d: seq<real>, n: nat, least: real, i: nat, j: nat)
    requires Square(d, n) && i < n && j < n
    ensures (i, j) in Near(d, n, least, 0.0) <==> Distance(d, n, i, j) == least
  {
    hide Distance, Square;
  }

  ghost predicate Positive(d: seq<real>, n: nat)
    requires Square(d, n)
  {
    forall i: nat, j: nat :: i < n && j < n ==> Distance(d, n, i, j) > 0.0
  }

  /** Every distance and the one back are within the margin of the one above the diagonal, which is
      further than the margin from the distance of its row to itself. */
  ghost predicate Balanced(d: seq<real>, n: nat, accuracy: real)
    requires Square(d, n)
  {
    forall i: nat, j: nat :: i < j < n ==>
      var x := Distance(d, n, i, j);
      && x * (1.0 - accuracy) < Distance(d, n, j, i) < x * (1.0 + accuracy)
      && Distance(d, n, i, i) <= x * (1.0 - accuracy)
  }

  lemma UsableMeans(d: seq<real>, n: nat, accuracy: real)
    requires Square(d, n) && Positive(d, n) && accuracy > 0.0
    ensures Usable(d, n, accuracy) <==> Balanced(d, n, accuracy)
  {
    hide Distance, CompareDistances, Square;
    forall i: nat, j: nat | i < j < n
      ensures
        var x := Distance(d, n, i, j);
        && (CompareDistances(x, Distance(d, n, j, i), accuracy) == 0
            <==> x * (1.0 - accuracy) < Distance(d, n, j, i) < x * (1.0 + accuracy))
        && (CompareDistances(x, Distance(d, n, i, i), accuracy) > 0
            <==> Distance(d, n, i, i) <= x * (1.0 - accuracy))
    {
      MarginMeans(Distance(d, n, i, j), Distance(d, n, j, i), accuracy);
      MarginMeans(Distance(d, n, i, j), Distance(d, n, i, i), accuracy);
    }
  }

  /** Without an accuracy the matrix must be symmetric, and every object closest to itself. */
  lemma ExactlyUsable(d: seq<real>, n: nat)
    requires Square(d, n)
    ensures Usable(d, n, 0.0)
      <==> forall i: nat, j: nat :: i < j < n ==>
        Distance(d, n, i, j) == Distance(d, n, j, i) && Distance(d, n, i, j) > Distance(d, n, i, i)
  {
    hide Distance, Square;
  }

  // ---- Several accuracies ----

  /** An accuracy with which nothing is grouped. */
  ghost predicate Fruitless(d: seq<real>, n: nat, accuracy: real, needcheck: bool)
    requires Square(d, n)
  {
    (needcheck && !Usable(d, n, accuracy)) || Finds(d, n, accuracy, NoGroups)
  }

  ghost predicate AllFruitless(d: seq<real>, n: nat, accuracies: seq<real>, needcheck: bool, k: nat, end: nat)
    requires Square(d, n) && end <= |accuracies|
  {
    forall i :: k <= i < end ==> Fruitless(d, n, accuracies[i], needcheck)
  }

  ghost predicate FirstFruit(d: seq<real>, n: nat, accuracies: seq<real>, needcheck: bool, k: nat, a: nat, r: Grouping)
    requires Square(d, n) && a < |accuracies|
  {
    && AllFruitless(d, n, accuracies, needcheck, k, a)
    && !Fruitless(d, n, accuracies[a], needcheck) && Finds(d, n, accuracies[a], r)
  }

  ghost predicate Fruit(d: seq<real>, n: nat, accuracies: seq<real>, needcheck: bool, k: nat, r: Grouping)
    requires Square(d, n)
  {
    exists a :: k <= a < |accuracies| && FirstFruit(d, n, accuracies, needcheck, k, a, r)
  }

  lemma FruitStep(d: seq<real>, n: nat, accuracies: seq<real>, needcheck: bool, k: nat, r: Grouping)
    requires Square(d, n) && k < |accuracies|
    ensures Fruit(d, n, accuracies, needcheck, k, r)
      <==> if Fruitless(d, n, accuracies[k], needcheck) then Fruit(d, n, accuracies, needcheck, k + 1, r)
           else Finds(d, n, accuracies[k], r)
  {
    hide Finds, Usable, Square, Fruitless;
    if Fruitless(d, n, accuracies[k], needcheck) {
      if a :| k <= a < |accuracies| && FirstFruit(d, n, accuracies, needcheck, k, a, r) {
        assert FirstFruit(d, n, accuracies, needcheck, k + 1, a, r);
      }
      var next := k + 1;
      if a :| next <= a < |accuracies| && FirstFruit(d, n, accuracies, needcheck, next, a, r) {
        assert FirstFruit(d, n, accuracies, needcheck, k, a, r);
      }
    } else {
      assert Finds(d, n, accuracies[k], r) ==> FirstFruit(d, n, accuracies, needcheck, k, k, r);
    }
  }

  /** The groups are those of the first accuracy that is not fruitless. */
  lemma {:induction false} FirstThatGroups(d: seq<real>, n: nat, accuracies: seq<real>, needcheck: bool, k: nat,
      r: Grouping)
    requires Square(d, n) && k <= |accuracies|
    ensures FirstGrouping(d, n, accuracies, needcheck, k, r)
      <==> (r == NoGroups && AllFruitless(d, n, accuracies, needcheck, k, |accuracies|))
           || Fruit(d, n, accuracies, needcheck, k, r)
    decreases |accuracies| - k
  {
    hide Finds, Usable, Square, Fruit;
    if k < |accuracies| {
      FirstThatGroups(d, n, accuracies, needcheck, k + 1, r);
      FruitStep(d, n, accuracies, needcheck, k, r);
      if Fruitless(d, n, accuracies[k], needcheck) {
        assert AllFruitless(d, n, accuracies, needcheck, k, |accuracies|)
          <==> AllFruitless(d, n, accuracies, needcheck, k + 1, |accuracies|);
      }
    } else {
      NoFruit(d, n, accuracies, needcheck, k, r);
    }
  }

  lemma NoFruit(d: seq<real>, n: nat, accuracies: seq<real>, needcheck: bool, k: nat, r: Grouping)
    requires Square(d, n) && k >= |accuracies|
    ensures !Fruit(d, n, accuracies, needcheck, k, r)
  {
  }

  // ---- A real run ----

  /** Two pairs, at distances 1.0 and 1.105; the second counts as minimal with an accuracy of 0.1,
      since 0.105 is less than a tenth of 1.105, though not less than a tenth of 1.0. */
  const PAIRS := [0.5, 1.0, 2.0, 2.0,
                  1.0, 0.5, 2.0, 2.0,
                  2.0, 2.0, 0.5, 1.105,
                  2.0, 2.0, 1.105, 0.5]

  ghost const BOTH_PAIRS: Pairs := {(0, 1), (1, 0), (2, 3), (3, 2)}

  lemma PairCells(i: nat, j: nat)
    requires i < 4 && j < 4
    ensures Square(PAIRS, 4)
    ensures Distance(PAIRS, 4, i, j)
      == if i == j then 0.5 else if (i, j) !in BOTH_PAIRS then 2.0 else if i < 2 then 1.0 else 1.105
  {
    if i == 0 {} else if i == 1 {} else if i == 2 {} else {}
    if j == 0 {} else if j == 1 {} else if j == 2 {} else {}
  }

  lemma PairsAreNear()
    ensures Square(PAIRS, 4) && IsLeast(PAIRS, 4, 1.0)
    ensures Near(PAIRS, 4, 1.0, 0.1) == BOTH_PAIRS
  {
    hide PAIRS, Distance;
    PairCells(0, 0);
    forall i: nat, j: nat | i < 4 && j < 4
      ensures Distance(PAIRS, 4, i, j)
        == if i == j then 0.5 else if (i, j) !in BOTH_PAIRS then 2.0 else if i < 2 then 1.0 else 1.105
    {
      PairCells(i, j);
    }
    assert Distance(PAIRS, 4, 0, 1) == 1.0;
  }

  /** One group after the other: the row of its first object closes each of them. */
  lemma PairsGrouped()
    ensures Groups(BOTH_PAIRS, Start(4), 0) == Search([1, 1, 2, 2], 3, 0)
  {
    hide Close, Groups;
    var a, b := [1, 1, 0, 0], [1, 1, 2, 2];
    assert Joined(BOTH_PAIRS, [1, 0, 0, 0], 1, 0) == a && Start(4).ids[0 := 1] == [1, 0, 0, 0];
    CloseIsClass(BOTH_PAIRS, [1, 0, 0, 0], 1, 0);
    assert Joined(BOTH_PAIRS, [1, 1, 2, 0], 2, 2) == b && a[2 := 2] == [1, 1, 2, 0];
    CloseIsClass(BOTH_PAIRS, [1, 1, 2, 0], 2, 2);
    GroupsStep(BOTH_PAIRS, Start(4), 0);
    GroupsStep(BOTH_PAIRS, Search(a, 2, 0), 1);
    GroupsStep(BOTH_PAIRS, Search(a, 2, 0), 2);
    GroupsStep(BOTH_PAIRS, Search(b, 3, 0), 3);
    GroupsEnd(BOTH_PAIRS, Search(b, 3, 0), 4);
  }

  method GroupPairs() returns (nbgroups: nat, groupids: seq<nat>)
    ensures nbgroups == 2 && groupids == [1, 1, 2, 2]
  {
    hide Groups, Near, IsLeast, PAIRS;
    var d := new real[|PAIRS|](i requires 0 <= i < |PAIRS| => PAIRS[i]);
    assert d[..] == PAIRS;
    PairsAreNear();
    var ids := new nat[4](_ => 0);
    ghost var least;
    nbgroups, least := FindGroups(4, d, 0.1, ids);
    LeastUnique(PAIRS, 4, least, 1.0);
    PairsGrouped();
    groupids := ids[..];
  }
}
