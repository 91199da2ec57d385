/** A matrix of distances in which the scans miss an object (src/distances.c). */
module GroupPath {
  import opened MatrixCompaction
  import opened GroupSearch
  import opened GroupClasses
  import opened GroupClosure
  import opened GroupHierarchy

  /** Distance 1 between objects 0 and 3, 3 and 2, and 2 and 1; distance 2 between the others. */
  const MATRIX := [0.0, 2.0, 2.0, 1.0,
                   2.0, 0.0, 1.0, 2.0,
                   2.0, 1.0, 0.0, 1.0,
                   1.0, 2.0, 1.0, 0.0]

  lemma Cells(i: nat, j: nat)
    requires i < 4 && j < 4
    ensures Square(MATRIX, 4)
    ensures Distance(MATRIX, 4, i, j) == if i == j then 0.0 else if (i, j) in PATH then 1.0 else 2.0
  {
    if i == 0 {} else if i == 1 {} else if i == 2 {} else {}
    if j == 0 {} else if j == 1 {} else if j == 2 {} else {}
  }

  /** The matrix is one that grouping accepts, and its smallest distances make the path. */
  lemma MatrixIsPath()
    ensures Square(MATRIX, 4) && IsLeast(MATRIX, 4, 1.0) && Usable(MATRIX, 4, 0.0)
    ensures Near(MATRIX, 4, 1.0, 0.0) == PATH
    ensures forall i: nat, j: nat :: i < 4 && j < 4 ==> Distance(MATRIX, 4, i, j) == Distance(MATRIX, 4, j, i)
  {
    hide MATRIX, Distance;
    Cells(0, 0);
    forall i: nat, j: nat | i < 4 && j < 4
      ensures Distance(MATRIX, 4, i, j) == if i == j then 0.0 else if (i, j) in PATH then 1.0 else 2.0
    {
      Cells(i, j);
    }
    assert Distance(MATRIX, 4, 0, 3) == 1.0;
  }

  /** The groups of the matrix are not its components: object 1, at distance 1 of object 2, is left out. */
  lemma MatrixGroupsMissed()
    ensures
      var near := Near(MATRIX, 4, 1.0, 0.0);
      && |Groups(near, Start(4), 0).ids| == 4
      && !GroupsAreComponents(near, 4, Groups(near, Start(4), 0).ids)
      && exists i: nat :: i < 4 && !ReachesAll(near, 4, i)
  {
    hide Groups, Near, GroupsAreComponents, ReachesAll, Distance, MATRIX;
    MatrixIsPath();
    PathIsNoComponent();
    MatrixGroups(MATRIX, 4, 1.0, 0.0);
  }

  /** A real run: the matrix passes the check, and the search groups all objects but object 1. */
  method MissedInMatrix() returns (usable: bool, nbgroups: nat, groupids: seq<nat>)
    ensures usable && nbgroups == 1 && groupids == [1, 0, 1, 1]
  {
    hide Groups, Near, Usable, IsLeast, MATRIX;
    var d := new real[|MATRIX|](i requires 0 <= i < |MATRIX| => MATRIX[i]);
    assert d[..] == MATRIX;
    MatrixIsPath();
    usable := CheckMatrix(4, d, 0.0);
    var ids := new nat[4](_ => 0);
    ghost var least;
    nbgroups, least := FindGroups(4, d, 0.0, ids);
    LeastUnique(MATRIX, 4, least, 1.0);
    PathIsMissed();
    groupids := ids[..];
  }
}
