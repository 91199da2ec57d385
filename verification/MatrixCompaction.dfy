/** Dropping the objects that do not exist from a distance matrix (src/distances.c): rows and
    columns of a flattened square matrix are removed in place by moving blocks of cells. */
module MatrixCompaction {
  import opened Collections

  // ---- Cells of a flattened matrix ----

  /** The index of a cell of a flattened matrix with `n` columns. */
  function Pos(n: nat, row: nat, col: nat): nat {
    row * n + col
  }

  lemma PosNextRow(n: nat, row: nat)
    ensures Pos(n, row + 1, 0) == Pos(n, row, 0) + n && Pos(n, 0, 0) == 0
  {
    assert (row + 1) * n == row * n + n;
  }

  lemma PosCol(n: nat, row: nat, col: nat)
    ensures Pos(n, row, col) == Pos(n, row, 0) + col
  {
  }

  lemma {:induction false} PosRows(n: nat, r: nat, s: nat)
    requires r <= s
    ensures Pos(n, r, 0) <= Pos(n, s, 0)
    decreases s - r
  {
    if r < s {
      PosRows(n, r + 1, s);
      PosNextRow(n, r);
    }
  }

  /** Cells are laid out in lexicographic order. */
  lemma PosOrder(n: nat, r: nat, c: nat, s: nat, d: nat)
    requires c < n && d < n
    ensures Pos(n, r, c) < Pos(n, s, d) <==> r < s || (r == s && c < d)
  {
    PosCol(n, r, c);
    PosCol(n, s, d);
    hide Pos;
    if r < s {
      PosRows(n, r + 1, s);
      PosNextRow(n, r);
    } else if s < r {
      PosRows(n, s + 1, r);
      PosNextRow(n, s);
    }
  }

  lemma PosInside(n: nat, r: nat, c: nat)
    requires r < n && c < n
    ensures Pos(n, r, c) < Pos(n, n, 0)
  {
    PosCol(n, r, c);
    PosNextRow(n, r);
    PosRows(n, r + 1, n);
  }

  /** Row or column `k` of the matrix without row and column `i`. */
  function Skip(i: nat, k: nat): nat {
    if k < i then k else k + 1
  }

  // ---- One removal ----

  /** `memmove` within one array. */
  method Memmove<T>(a: array<T>, dst: nat, src: nat, len: nat)
    requires dst + len <= a.Length && src + len <= a.Length
    modifies a
    ensures forall k {:trigger a[k]} :: 0 <= k < a.Length ==>
      a[k] == if dst <= k < dst + len then old(a[src + (k - dst)]) else old(a[k])
  {
    forall k | 0 <= k < len {
      a[dst + k] := a[src + k];
    }
  }

  /** The first `done` cells of the smaller matrix are in place, and the cells from `next` on are
      still those of the larger one. */
  ghost predicate Moved(now: seq<real>, before: seq<real>, n: nat, i: nat, done: nat, next: nat)
    requires n >= 1
  {
    && |now| == |before| >= Pos(n, n, 0) && done <= next
    && (forall k :: next <= k < |now| ==> now[k] == before[k])
    && (forall r: nat, c: nat :: r < n - 1 && c < n - 1 && Pos(n - 1, r, c) < done ==> Kept(now, before, n, i, r, c))
  }

  ghost predicate Kept(now: seq<real>, before: seq<real>, n: nat, i: nat, r: nat, c: nat)
    requires n >= 1
  {
    var p, q := Pos(n - 1, r, c), Pos(n, Skip(i, r), Skip(i, c));
    p < |now| && q < |before| && now[p] == before[q]
  }

  /** The cells of the smaller matrix between `done` and `done + len` come from consecutive cells
      of the larger one, starting at `src`. */
  ghost predicate Contiguous(n: nat, i: nat, done: nat, src: nat, len: nat)
    requires n >= 1
  {
    forall r: nat, c: nat :: r < n - 1 && c < n - 1 && done <= Pos(n - 1, r, c) < done + len ==>
      Pos(n, Skip(i, r), Skip(i, c)) == src + (Pos(n - 1, r, c) - done)
  }

  lemma MoveStep(now: seq<real>, after: seq<real>, before: seq<real>, n: nat, i: nat,
                 done: nat, next: nat, src: nat, len: nat)
    requires n >= 1 && Moved(now, before, n, i, done, next) && Contiguous(n, i, done, src, len)
    requires next <= src && src + len <= |now| && |after| == |now|
    requires forall k {:trigger after[k]} :: 0 <= k < |now| ==>
      after[k] == if done <= k < done + len then now[src + (k - done)] else now[k]
    ensures Moved(after, before, n, i, done + len, src + len)
  {
    hide Pos;
    forall r: nat, c: nat | r < n - 1 && c < n - 1 && Pos(n - 1, r, c) < done + len
      ensures Kept(after, before, n, i, r, c)
    {
      var p, q := Pos(n - 1, r, c), Pos(n, Skip(i, r), Skip(i, c));
      if p < done {
        assert Kept(now, before, n, i, r, c);
        assert after[p] == now[p];
      } else {
        assert q == src + (p - done);
        assert after[p] == now[q] == before[q];
      }
    }
  }

  method Move(a: array<real>, ghost before: seq<real>, ghost n: nat, ghost i: nat,
              done: nat, ghost next: nat, src: nat, len: nat)
    requires n >= 1 && Moved(a[..], before, n, i, done, next) && Contiguous(n, i, done, src, len)
    requires next <= src && src + len <= a.Length
    modifies a
    ensures Moved(a[..], before, n, i, done + len, src + len)
  {
    ghost var now := a[..];
    Memmove(a, done, src, len);
    hide Moved, Contiguous;
    MoveStep(now, a[..], before, n, i, done, next, src, len);
  }

  /** A block from the middle of row `j` to the middle of row `j + 1`, both above row `i`, or both
      below it. */
  lemma WholeRowContiguous(n: nat, i: nat, j: nat)
    requires i < n && j + 1 < n - 1 && (j + 1 < i || i <= j)
    ensures Contiguous(n, i, Pos(n - 1, j, i), Pos(n, Skip(i, j), i + 1), n - 1)
    ensures Pos(n - 1, j, i) + (n - 1) == Pos(n - 1, j + 1, i)
    ensures Pos(n, Skip(i, j), i + 1) + (n - 1) == Pos(n, Skip(i, j + 1), i)
    ensures Pos(n, Skip(i, j), i) <= Pos(n, Skip(i, j), i + 1)
  {
    hide Pos, Contiguous;
    PosCol(n, Skip(i, j), i);
    PosCol(n - 1, j, i); PosCol(n - 1, j + 1, i); PosNextRow(n - 1, j);
    PosCol(n, Skip(i, j), i + 1); PosCol(n, Skip(i, j) + 1, i); PosNextRow(n, Skip(i, j));
    ContiguousIfRows(n, i, Pos(n - 1, j, i), Pos(n, Skip(i, j), i + 1), n - 1, j, i);
  }

  /** The end of row `j`. */
  lemma RowEndContiguous(n: nat, i: nat, j: nat)
    requires i < n && j < n - 1
    ensures Contiguous(n, i, Pos(n - 1, j, i), Pos(n, Skip(i, j), i + 1), n - i - 1)
    ensures Pos(n - 1, j, i) + (n - i - 1) == Pos(n - 1, j + 1, 0)
    ensures Pos(n, Skip(i, j), i + 1) + (n - i - 1) == Pos(n, Skip(i, j) + 1, 0)
    ensures Pos(n, Skip(i, j), i) <= Pos(n, Skip(i, j), i + 1)
  {
    hide Pos, Contiguous;
    PosCol(n, Skip(i, j), i);
    PosCol(n - 1, j, i); PosNextRow(n - 1, j);
    PosCol(n, Skip(i, j), i + 1); PosNextRow(n, Skip(i, j));
    ContiguousIfRows(n, i, Pos(n - 1, j, i), Pos(n, Skip(i, j), i + 1), n - i - 1, j, i);
  }

  /** Cells from `(j, i)` on, for less than a row: the rest of row `j`, then row `j + 1`. */
  lemma ContiguousIfRows(n: nat, i: nat, done: nat, src: nat, len: nat, j: nat, col: nat)
    requires i < n && j < n - 1 && col == i && len <= n - 1
    requires done == Pos(n - 1, j, i) && src == Pos(n, Skip(i, j), i + 1)
    requires len <= n - i - 1 || j + 1 < i || i <= j
    ensures Contiguous(n, i, done, src, len)
  {
    hide Pos;
    forall r: nat, c: nat | r < n - 1 && c < n - 1 && done <= Pos(n - 1, r, c) < done + len
      ensures Pos(n, Skip(i, r), Skip(i, c)) == src + (Pos(n - 1, r, c) - done)
    {
      PosCol(n - 1, r, c); PosCol(n - 1, j, i);
      PosCol(n, Skip(i, j), i + 1); PosCol(n, Skip(i, r), Skip(i, c));
      PosNextRow(n - 1, j); PosNextRow(n - 1, j + 1); PosNextRow(n, Skip(i, j));
      if r < j {
        PosRows(n - 1, r + 1, j); PosNextRow(n - 1, r);
      } else if r > j + 1 {
        PosRows(n - 1, j + 2, r);
      }
    }
  }

  /** The beginning of row `i + 1`, which becomes row `i`. */
  lemma RowStartContiguous(n: nat, i: nat)
    requires i < n - 1
    ensures Contiguous(n, i, Pos(n - 1, i, 0), Pos(n, i + 1, 0), i)
    ensures Pos(n - 1, i, 0) + i == Pos(n - 1, i, i) && Pos(n, i + 1, 0) + i == Pos(n, i + 1, i)
  {
    PosCol(n - 1, i, i); PosCol(n, i + 1, i);
    hide Pos;
    forall r: nat, c: nat | r < n - 1 && c < n - 1 && Pos(n - 1, i, 0) <= Pos(n - 1, r, c) < Pos(n - 1, i, 0) + i
      ensures Pos(n, Skip(i, r), Skip(i, c)) == Pos(n, i + 1, 0) + (Pos(n - 1, r, c) - Pos(n - 1, i, 0))
    {
      PosOrder(n - 1, r, c, i, 0);
      PosOrder(n - 1, r, c, i, i);
      PosCol(n - 1, r, c); PosCol(n, i + 1, c);
    }
  }

  /** Removing row and column `i` of an `n` by `n` matrix, with the moves of the source: rows
      above `i`, the start of row `i + 1`, rows below. */
  method DropRowAndColumn(a: array<real>, n: nat, i: nat)
    requires i < n && Pos(n, n, 0) <= a.Length
    modifies a
    ensures forall r: nat, c: nat :: r < n - 1 && c < n - 1 ==> Kept(a[..], old(a[..]), n, i, r, c)
  {
    ghost var before := a[..];
    hide Moved, Pos;
    NothingMoved(before, n, i);
    if i > 0 {
      DropAbove(a, before, n, i);
    }
    if i < n - 1 {
      DropBelow(a, before, n, i);
    }
    AllMoved(a[..], before, n, i, if i < n - 1 then Pos(n, n, 0) else Pos(n, i, 0));
  }

  lemma NothingMoved(m: seq<real>, n: nat, i: nat)
    requires i < n && Pos(n, n, 0) <= |m|
    ensures Moved(m, m, n, i, Pos(n - 1, 0, i), Pos(n, 0, i))
    ensures i == 0 ==> Moved(m, m, n, i, Pos(n - 1, i, 0), Pos(n, i, 0))
  {
    forall r: nat, c: nat | r < n - 1 && c < n - 1 && Pos(n - 1, r, c) < i
      ensures Kept(m, m, n, i, r, c)
    {
      PosInside(n, 0, c);
      if r > 0 { PosOrder(n - 1, 0, n - 2, r, c); }
    }
  }

  lemma AllMoved(now: seq<real>, before: seq<real>, n: nat, i: nat, next: nat)
    requires i < n && Moved(now, before, n, i, Pos(n - 1, n - 1, 0), next)
    ensures forall r: nat, c: nat :: r < n - 1 && c < n - 1 ==> Kept(now, before, n, i, r, c)
  {
    forall r: nat, c: nat | r < n - 1 && c < n - 1
      ensures Kept(now, before, n, i, r, c)
    {
      PosInside(n - 1, r, c);
    }
  }

  /** The block from the middle of row `j` to the middle of row `j + 1`. */
  method MoveRow(a: array<real>, ghost before: seq<real>, n: nat, i: nat, j: nat)
    requires i < n && j + 1 < n - 1 && (j + 1 < i || i <= j)
    requires Moved(a[..], before, n, i, Pos(n - 1, j, i), Pos(n, Skip(i, j), i))
    modifies a
    ensures Moved(a[..], before, n, i, Pos(n - 1, j + 1, i), Pos(n, Skip(i, j + 1), i))
  {
    hide Moved, Contiguous, Pos;
    WholeRowContiguous(n, i, j);
    InMatrix(a[..], before, n, i, Pos(n - 1, j, i), Pos(n, Skip(i, j), i), Skip(i, j + 1), i);
    Move(a, before, n, i, Pos(n - 1, j, i), Pos(n, Skip(i, j), i), Pos(n, Skip(i, j), i + 1), n - 1);
  }

  /** The end of row `j`. */
  method MoveRowEnd(a: array<real>, ghost before: seq<real>, n: nat, i: nat, j: nat)
    requires i < n && j < n - 1
    requires Moved(a[..], before, n, i, Pos(n - 1, j, i), Pos(n, Skip(i, j), i))
    modifies a
    ensures Moved(a[..], before, n, i, Pos(n - 1, j + 1, 0), Pos(n, Skip(i, j) + 1, 0))
  {
    hide Moved, Contiguous, Pos;
    RowEndContiguous(n, i, j);
    InMatrixRow(a[..], before, n, i, Pos(n - 1, j, i), Pos(n, Skip(i, j), i), Skip(i, j) + 1);
    Move(a, before, n, i, Pos(n - 1, j, i), Pos(n, Skip(i, j), i), Pos(n, Skip(i, j), i + 1), n - i - 1);
  }

  method DropAbove(a: array<real>, ghost before: seq<real>, n: nat, i: nat)
    requires 0 < i < n && Moved(a[..], before, n, i, Pos(n - 1, 0, i), Pos(n, 0, i))
    modifies a
    ensures Moved(a[..], before, n, i, Pos(n - 1, i, 0), Pos(n, i, 0))
  {
    hide Moved, Pos;
    for j := 0 to i - 1
      invariant Moved(a[..], before, n, i, Pos(n - 1, j, i), Pos(n, j, i))
    {
      MoveRow(a, before, n, i, j);
    }
    MoveRowEnd(a, before, n, i, i - 1);
  }

  method DropBelow(a: array<real>, ghost before: seq<real>, n: nat, i: nat)
    requires i < n - 1 && Moved(a[..], before, n, i, Pos(n - 1, i, 0), Pos(n, i, 0))
    modifies a
    ensures Moved(a[..], before, n, i, Pos(n - 1, n - 1, 0), Pos(n, n, 0))
  {
    hide Moved, Contiguous, Pos;
    RowStartContiguous(n, i);
    PosNextRow(n, i);
    InMatrix(a[..], before, n, i, Pos(n - 1, i, 0), Pos(n, i, 0), i + 1, i);
    Move(a, before, n, i, Pos(n - 1, i, 0), Pos(n, i, 0), Pos(n, i + 1, 0), i);
    for j := i to n - 2
      invariant Moved(a[..], before, n, i, Pos(n - 1, j, i), Pos(n, j + 1, i))
    {
      MoveRow(a, before, n, i, j);
    }
    MoveRowEnd(a, before, n, i, n - 2);
  }

  lemma InMatrix(now: seq<real>, before: seq<real>, n: nat, i: nat, done: nat, next: nat, r: nat, c: nat)
    requires n >= 1 && Moved(now, before, n, i, done, next) && r < n && c < n
    ensures Pos(n, r, c) <= |now|
  {
    PosInside(n, r, c);
  }

  lemma InMatrixRow(now: seq<real>, before: seq<real>, n: nat, i: nat, done: nat, next: nat, r: nat)
    requires n >= 1 && Moved(now, before, n, i, done, next) && r <= n
    ensures Pos(n, r, 0) <= |now|
  {
    PosRows(n, r, n);
  }

  // ---- All removals ----

  /** The original rows, among the first `t`, whose index names an existing object. */
  ghost function Existing<O>(find: nat -> Option<O>, indexes: seq<nat>, t: nat): seq<nat>
    requires t <= |indexes|
  {
    if t == 0 then [] else
    Existing(find, indexes, t - 1) + if find(indexes[t - 1]).Some? then [t - 1] else []
  }

  /** They are exactly those rows, in order. */
  lemma {:induction false} ExistingRows<O>(find: nat -> Option<O>, indexes: seq<nat>, t: nat)
    requires t <= |indexes|
    ensures forall r: nat :: r in Existing(find, indexes, t) <==> r < t && find(indexes[r]).Some?
    ensures forall j, k :: 0 <= j < k < |Existing(find, indexes, t)| ==>
      Existing(find, indexes, t)[j] < Existing(find, indexes, t)[k]
  {
    if t > 0 {
      ExistingRows(find, indexes, t - 1);
      var before := Existing(find, indexes, t - 1);
      assert forall k :: 0 <= k < |before| ==> before[k] in before;
    }
  }

  /** `t`, `t + 1`, ... below `n`. */
  ghost function From(t: nat, n: nat): (rows: seq<nat>)
    requires t <= n
  {
    seq(n - t, k requires 0 <= k => t + k)
  }

  /** The original rows still present when the first `t` have been looked at. */
  ghost function Rows<O>(find: nat -> Option<O>, indexes: seq<nat>, t: nat): seq<nat>
    requires t <= |indexes|
  {
    Existing(find, indexes, t) + From(t, |indexes|)
  }

  /** `now` is the matrix `before`, of `n` columns, cut down to some of its rows and columns. */
  ghost predicate Selected(now: seq<real>, before: seq<real>, n: nat, rows: seq<nat>) {
    forall r: nat, c: nat :: r < |rows| && c < |rows| ==> SelectedCell(now, before, n, rows, r, c)
  }

  ghost predicate SelectedCell(now: seq<real>, before: seq<real>, n: nat, rows: seq<nat>, r: nat, c: nat)
    requires r < |rows| && c < |rows|
  {
    var p, q := Pos(|rows|, r, c), Pos(n, rows[r], rows[c]);
    p < |now| && q < |before| && now[p] == before[q]
  }

  ghost predicate SelectedRows<T>(now: seq<T>, before: seq<T>, rows: seq<nat>) {
    |rows| <= |now| && forall r :: 0 <= r < |rows| ==> rows[r] < |before| && now[r] == before[rows[r]]
  }

  lemma SelectedDrop(after: seq<real>, now: seq<real>, before: seq<real>, n: nat, rows: seq<nat>, rows': seq<nat>,
      i: nat)
    requires i < |rows| && |rows'| == |rows| - 1
    requires forall k :: 0 <= k < |rows'| ==> rows'[k] == rows[Skip(i, k)]
    requires Selected(now, before, n, rows)
    requires forall r: nat, c: nat :: r < |rows| - 1 && c < |rows| - 1 ==> Kept(after, now, |rows|, i, r, c)
    ensures Selected(after, before, n, rows')
  {
    hide Pos;
    forall r: nat, c: nat | r < |rows'| && c < |rows'|
      ensures SelectedCell(after, before, n, rows', r, c)
    {
      assert Kept(after, now, |rows|, i, r, c);
      assert SelectedCell(now, before, n, rows, Skip(i, r), Skip(i, c));
    }
  }

  lemma SelectedAll(m: seq<real>, rows: seq<nat>)
    requires Pos(|rows|, |rows|, 0) <= |m| && forall k :: 0 <= k < |rows| ==> rows[k] == k
    ensures Selected(m, m, |rows|, rows)
  {
    forall r: nat, c: nat | r < |rows| && c < |rows|
      ensures SelectedCell(m, m, |rows|, rows, r, c)
    {
      PosInside(|rows|, r, c);
    }
  }

  lemma RowLooked<O>(find: nat -> Option<O>, indexes: seq<nat>, t: nat)
    requires t < |indexes|
    ensures |Existing(find, indexes, t)| < |Rows(find, indexes, t)|
    ensures |Rows(find, indexes, t)| == |Existing(find, indexes, t)| + (|indexes| - t)
    ensures Rows(find, indexes, t)[|Existing(find, indexes, t)|] == t
  {
  }

  lemma RowStays<O>(find: nat -> Option<O>, indexes: seq<nat>, t: nat)
    requires t < |indexes| && find(indexes[t]).Some?
    ensures Rows(find, indexes, t + 1) == Rows(find, indexes, t)
    ensures |Existing(find, indexes, t + 1)| == |Existing(find, indexes, t)| + 1
  {
    assert From(t, |indexes|) == [t] + From(t + 1, |indexes|);
  }

  lemma RowGoes<O>(find: nat -> Option<O>, indexes: seq<nat>, t: nat)
    requires t < |indexes| && find(indexes[t]).None?
    ensures Existing(find, indexes, t + 1) == Existing(find, indexes, t)
    ensures Without(Rows(find, indexes, t + 1), Rows(find, indexes, t), |Existing(find, indexes, t)|)
  {
    assert From(t, |indexes|) == [t] + From(t + 1, |indexes|);
  }

  ghost predicate Without(rows': seq<nat>, rows: seq<nat>, i: nat) {
    i < |rows| && |rows'| == |rows| - 1 && forall k :: 0 <= k < |rows'| ==> rows'[k] == rows[Skip(i, k)]
  }

  lemma RowsEnd<O>(find: nat -> Option<O>, indexes: seq<nat>)
    ensures Rows(find, indexes, |indexes|) == Existing(find, indexes, |indexes|)
  {
  }

  const UINT_VALUES: nat := 0x1_0000_0000

  /** `i--` on an unsigned integer: below 0 it wraps around. */
  function Decrement(i: nat): nat {
    (i + UINT_VALUES - 1) % UINT_VALUES
  }

  function Increment(i: nat): nat {
    (i + 1) % UINT_VALUES
  }

  lemma StepBackAndForth(i: nat)
    requires i < UINT_VALUES
    ensures Increment(Decrement(i)) == i
  {
    if i == 0 {
      assert Decrement(0) == UINT_VALUES - 1;
    } else {
      assert i + UINT_VALUES - 1 == UINT_VALUES + (i - 1);
    }
  }

  ghost predicate FoundRows<O>(found: seq<Option<O>>, find: nat -> Option<O>, indexes: seq<nat>, rows: seq<nat>,
      i: nat) {
    i <= |rows| && i <= |found| && forall r :: 0 <= r < i ==> rows[r] < |indexes| && found[r] == find(indexes[rows[r]])
  }

  lemma NothingLooked<O>(find: nat -> Option<O>, indexes: seq<nat>, cells: seq<real>, found: seq<Option<O>>)
    requires Pos(|indexes|, |indexes|, 0) <= |cells| && |found| == |indexes| < UINT_VALUES
    ensures Looked(find, indexes, cells, 0, |indexes|, 0, indexes, cells, found)
  {
    assert Rows(find, indexes, 0) == From(0, |indexes|);
    SelectedAll(cells, From(0, |indexes|));
  }

  lemma RowIndex(now: seq<nat>, before: seq<nat>, rows: seq<nat>, i: nat)
    requires SelectedRows(now, before, rows) && i < |rows|
    ensures i < |now| && rows[i] < |before| && now[i] == before[rows[i]]
  {
  }

  method KeepObject<O>(found: array<Option<O>>, i: nat, obj: Option<O>, ghost find: nat -> Option<O>,
                       ghost indexes: seq<nat>, ghost rows: seq<nat>)
    requires FoundRows(found[..], find, indexes, rows, i) && i < |rows| && i < found.Length
    requires rows[i] < |indexes| && obj == find(indexes[rows[i]])
    modifies found
    ensures FoundRows(found[..], find, indexes, rows, i + 1)
  {
    found[i] := obj;
  }

  /** Removing the object of row `i` from the matrix and from the list of indexes. */
  method DropObject(distances: array<real>, indexes: array<nat>, n: nat, i: nat,
                    ghost cells: seq<real>, ghost ids: seq<nat>, ghost rows: seq<nat>, ghost rows': seq<nat>)
    requires Selected(distances[..], cells, |ids|, rows) && SelectedRows(indexes[..], ids, rows)
    requires n == |rows| && Without(rows', rows, i)
    modifies distances, indexes
    ensures Selected(distances[..], cells, |ids|, rows') && SelectedRows(indexes[..], ids, rows')
  {
    hide Selected, Kept, Pos;
    ghost var before := distances[..];
    Fits(before, cells, |ids|, rows);
    DropRowAndColumn(distances, n, i);
    SelectedDrop(distances[..], before, cells, |ids|, rows, rows', i);
    DropIndex(indexes, n, i, ids, rows, rows');
  }

  method DropIndex(indexes: array<nat>, n: nat, i: nat, ghost ids: seq<nat>, ghost rows: seq<nat>,
      ghost rows': seq<nat>)
    requires SelectedRows(indexes[..], ids, rows) && n == |rows| && Without(rows', rows, i)
    modifies indexes
    ensures SelectedRows(indexes[..], ids, rows')
  {
    ghost var list := indexes[..];
    Memmove(indexes, i, i + 1, n - i - 1);
    forall r | 0 <= r < |rows'|
      ensures rows'[r] < |ids| && indexes[r] == ids[rows'[r]]
    {
      assert list[Skip(i, r)] == ids[rows[Skip(i, r)]];
    }
  }

  /** The state of the loop of `hwloc_distances__finalize_os` when `t` of the original rows have
      been looked at: `n` objects are left and `i` of them are known to exist. */
  ghost predicate Looked<O>(find: nat -> Option<O>, ids: seq<nat>, cells: seq<real>, t: nat, n: nat, i: nat,
                            indexes: seq<nat>, distances: seq<real>, found: seq<Option<O>>) {
    && t <= |ids| == |found| == |indexes| < UINT_VALUES
    && i == |Existing(find, ids, t)| && n == |Rows(find, ids, t)| && n - i == |ids| - t
    && SelectedRows(indexes, ids, Rows(find, ids, t))
    && Selected(distances, cells, |ids|, Rows(find, ids, t))
    && FoundRows(found, find, ids, Rows(find, ids, t), i)
  }

  /** One turn of that loop. */
  method LookAt<O>(find: nat -> Option<O>, indexes: array<nat>, distances: array<real>, found: array<Option<O>>,
                   n: nat, i: nat, ghost ids: seq<nat>, ghost cells: seq<real>, ghost t: nat)
    returns (n': nat, i': nat)
    requires Looked(find, ids, cells, t, n, i, indexes[..], distances[..], found[..]) && i < n
    modifies indexes, distances, found
    ensures Looked(find, ids, cells, t + 1, n', i', indexes[..], distances[..], found[..])
    ensures n' - i' == n - i - 1
  {
    hide Rows, Selected, SelectedRows, FoundRows, Pos, Without, Existing, From, Decrement, Increment;
    RowLooked(find, ids, t);
    RowIndex(indexes[..], ids, Rows(find, ids, t), i);
    var obj := find(indexes[i]);
    if obj.None? {
      RowGoes(find, ids, t);
      RowsShorter(find, ids, t, found[..], i);
      DropObject(distances, indexes, n, i, cells, ids, Rows(find, ids, t), Rows(find, ids, t + 1));
      StepBackAndForth(i);
      n', i' := n - 1, Decrement(i);
      i' := Increment(i');
    } else {
      RowStays(find, ids, t);
      KeepObject(found, i, obj, find, ids, Rows(find, ids, t));
      n', i' := n, i + 1;
    }
  }

  /** The loop of `hwloc_distances__finalize_os`. */
  method KeepExisting<O>(find: nat -> Option<O>, indexes: array<nat>, distances: array<real>, found: array<Option<O>>)
    returns (n: nat)
    requires found.Length == indexes.Length < UINT_VALUES && Pos(indexes.Length, indexes.Length, 0) <= distances.Length
    modifies indexes, distances, found
    ensures
      var rows := Existing(find, old(indexes[..]), indexes.Length);
      && n == |rows|
      && SelectedRows(indexes[..], old(indexes[..]), rows)
      && Selected(distances[..], old(distances[..]), indexes.Length, rows)
      && FoundRows(found[..], find, old(indexes[..]), rows, n)
  {
    hide Looked, SelectedRows, Selected, FoundRows, Existing, Pos;
    ghost var ids, cells := indexes[..], distances[..];
    n := indexes.Length;
    var i: nat := 0;
    ghost var t := 0;
    NothingLooked(find, ids, cells, found[..]);
    while i < n
      invariant Looked(find, ids, cells, t, n, i, indexes[..], distances[..], found[..])
      invariant n - i == |ids| - t
    {
      n, i := LookAt(find, indexes, distances, found, n, i, ids, cells, t);
      t := t + 1;
    }
    AllLooked(find, ids, cells, t, n, i, indexes[..], distances[..], found[..]);
  }

  lemma AllLooked<O>(find: nat -> Option<O>, ids: seq<nat>, cells: seq<real>, t: nat, n: nat, i: nat,
                     indexes: seq<nat>, distances: seq<real>, found: seq<Option<O>>)
    requires Looked(find, ids, cells, t, n, i, indexes, distances, found) && i >= n
    ensures
      var rows := Existing(find, ids, |ids|);
      && n == |rows| && SelectedRows(indexes, ids, rows)
      && Selected(distances, cells, |ids|, rows) && FoundRows(found, find, ids, rows, n)
  {
    RowsEnd(find, ids);
  }

  /** The distances given by the user for the objects of one type. */
  class OsDistances<O> {
    var nbobjs: nat
    var indexes: array<nat>
    var distances: array<real>
    var objs: array?<Option<O>>

    ghost predicate Valid()
      reads this
    {
      && nbobjs == indexes.Length < UINT_VALUES
      && Pos(nbobjs, nbobjs, 0) <= distances.Length
      && objs == null
    }

    constructor (indexes: array<nat>, distances: array<real>)
      requires indexes.Length < UINT_VALUES && Pos(indexes.Length, indexes.Length, 0) <= distances.Length
      ensures Valid() && this.indexes == indexes && this.distances == distances
    {
      nbobjs := indexes.Length;
      this.indexes, this.distances, objs := indexes, distances, null;
    }

    /** `hwloc_distances__finalize_os`: what is left is the original restricted, in order, to the
        rows and columns whose object exists. `find` looks an object up by its OS index. */
    method FinalizeOs(find: nat -> Option<O>) returns (ok: bool)
      requires Valid()
      modifies this, indexes, distances
      ensures indexes == old(indexes) && distances == old(distances)
      ensures
        var rows := Existing(find, old(indexes[..]), old(nbobjs));
        && nbobjs == |rows| && (ok <==> rows != [])
        && SelectedRows(indexes[..], old(indexes[..]), rows)
        && Selected(distances[..], old(distances[..]), old(nbobjs), rows)
        && (if ok then objs != null && FoundRows(objs[..], find, old(indexes[..]), rows, nbobjs) else objs == null)
    {
      var n := nbobjs;
      hide Selected, SelectedRows, FoundRows, Pos, Existing;
      var found := new Option<O>[n](_ => None);
      n := KeepExisting(find, indexes, distances, found);
      nbobjs := n;
      if n == 0 {
        return false;
      }
      objs := found;
      ok := true;
    }
  }

  lemma RowsShorter<O>(find: nat -> Option<O>, indexes: seq<nat>, t: nat, found: seq<Option<O>>, i: nat)
    requires t < |indexes| && Without(Rows(find, indexes, t + 1), Rows(find, indexes, t), i)
    requires FoundRows(found, find, indexes, Rows(find, indexes, t), i)
    ensures |Rows(find, indexes, t + 1)| == |Rows(find, indexes, t)| - 1
    ensures FoundRows(found, find, indexes, Rows(find, indexes, t + 1), i)
  {
  }

  lemma Fits(now: seq<real>, before: seq<real>, n: nat, rows: seq<nat>)
    requires Selected(now, before, n, rows)
    ensures Pos(|rows|, |rows|, 0) <= |now|
  {
    if |rows| > 0 {
      assert SelectedCell(now, before, n, rows, |rows| - 1, |rows| - 1);
      PosCol(|rows|, |rows| - 1, |rows| - 1);
      PosNextRow(|rows|, |rows| - 1);
    } else {
      PosNextRow(0, 0);
    }
  }
}
