/** Comparing and counting bitmaps (src/cpuset.c). */
module BitmapOrder {
  import opened Bitmap
  import opened BitmapQueries

  // ---- Words as numbers ----

  /** The number a word stands for, from its first `n` bits. */
  function Number(w: Word, n: nat): nat
    requires n <= BITS
  {
    if n == 0 then 0 else Number(w, n - 1) + if w[n - 1] then Power(n - 1) else 0
  }

  function Power(n: nat): (p: nat)
    ensures p >= 1
  {
    if n == 0 then 1 else 2 * Power(n - 1)
  }

  /** The highest bit in which two words differ is set in the second. */
  ghost predicate LessBits(a: Word, b: Word, n: nat)
    requires n <= BITS
  {
    exists k :: 0 <= k < n && !a[k] && b[k] && forall j :: k < j < n ==> a[j] == b[j]
  }

  lemma {:induction false} NumberBound(w: Word, n: nat)
    requires n <= BITS
    ensures Number(w, n) < Power(n)
  {
    if n > 0 {
      NumberBound(w, n - 1);
    }
  }

  /** Comparing words as numbers compares their highest differing bit. */
  lemma {:induction false} NumberOrder(a: Word, b: Word, n: nat)
    requires n <= BITS
    ensures Number(a, n) < Number(b, n) <==> LessBits(a, b, n)
    ensures Number(a, n) == Number(b, n) <==> forall k :: 0 <= k < n ==> a[k] == b[k]
  {
    if n > 0 {
      NumberOrder(a, b, n - 1);
      NumberBound(a, n - 1);
      NumberBound(b, n - 1);
      if a[n - 1] == b[n - 1] {
        if LessBits(a, b, n - 1) {
          var k :| 0 <= k < n - 1 && !a[k] && b[k] && forall j :: k < j < n - 1 ==> a[j] == b[j];
          assert forall j :: k < j < n ==> a[j] == b[j];
        }
        if LessBits(a, b, n) {
          var k :| 0 <= k < n && !a[k] && b[k] && forall j :: k < j < n ==> a[j] == b[j];
          assert k < n - 1;
        }
      } else if b[n - 1] {
        assert LessBits(a, b, n);
      } else {
        assert !LessBits(a, b, n);
      }
    }
  }

  // ---- The order on sets ----

  /** Finite sets come before infinite ones; otherwise the highest bit in which they differ
      decides. */
  ghost predicate Less(a: Bits, b: Bits) {
    || (!a.infinite && b.infinite)
    || (a.infinite == b.infinite && exists k: nat :: Tops(a, b, k))
  }

  ghost predicate Tops(a: Bits, b: Bits, k: nat) {
    !Member(a, k) && Member(b, k) && forall j: nat :: j > k ==> (Member(a, j) <==> Member(b, j))
  }

  /** `hwloc_bitmap_compare`. */
  method Compare(s: Bitmap, t: Bitmap) returns (r: int)
    requires s.Valid() && t.Valid()
    ensures r == 0 <==> Set(s.Value()) == Set(t.Value())
    ensures r < 0 <==> Less(s.Value(), t.Value())
    ensures r > 0 <==> Less(t.Value(), s.Value())
  {
    hide Member, Set, Less;
    ghost var a, b := s.Value(), t.Value();
    if s.infinite != t.infinite {
      InfiniteDecides(a, b);
      return (if s.infinite then 1 else 0) - (if t.infinite then 1 else 0);
    }
    var i := if s.count > t.count then s.count else t.count;
    SameAbove(a, b, i);
    while i > 0
      invariant forall k: nat :: k >= i ==> Read(a, k) == Read(b, k)
    {
      i := i - 1;
      var v1, v2 := s.ReadUlong(i), t.ReadUlong(i);
      if v1 != v2 {
        WordDecides(a, b, i);
        return if Number(v1, BITS) < Number(v2, BITS) then -1 else 1;
      }
    }
    NothingDecides(a, b);
    return 0;
  }

  lemma InfiniteDecides(a: Bits, b: Bits)
    requires a.infinite != b.infinite
    ensures Set(a) != Set(b)
    ensures Less(a, b) <==> b.infinite
    ensures Less(b, a) <==> a.infinite
  {
    var end := Most(a, b) * BITS;
    PastEnd(a, end);
    PastEnd(b, end);
    assert (end in Set(a)) != (end in Set(b));
  }

  lemma SameAbove(a: Bits, b: Bits, x: nat)
    requires a.infinite == b.infinite && x >= |a.words| && x >= |b.words|
    ensures forall k: nat :: k >= x ==> Read(a, k) == Read(b, k)
  {
  }

  lemma NothingDecides(a: Bits, b: Bits)
    requires a.infinite == b.infinite && forall k: nat :: k >= 0 ==> Read(a, k) == Read(b, k)
    ensures Set(a) == Set(b) && !Less(a, b) && !Less(b, a)
  {
    forall i: nat
      ensures Member(a, i) <==> Member(b, i)
    {
      ReadMember(a, i);
      ReadMember(b, i);
    }
  }

  lemma WordDecides(a: Bits, b: Bits, x: nat)
    requires a.infinite == b.infinite && Read(a, x) != Read(b, x)
    requires forall k: nat :: k > x ==> Read(a, k) == Read(b, k)
    ensures Set(a) != Set(b)
    ensures if Number(Read(a, x), BITS) < Number(Read(b, x), BITS) then Less(a, b) && !Less(b, a)
            else Less(b, a) && !Less(a, b)
  {
    DifferentWord(a, b, x);
    var u, v := Read(a, x), Read(b, x);
    NumberOrder(u, v, BITS);
    NumberOrder(v, u, BITS);
    if LessBits(u, v, BITS) {
      WordTops(a, b, x);
      LessAsymmetric(a, b);
    } else {
      assert LessBits(v, u, BITS) by {
        assert exists k :: 0 <= k < BITS && u[k] != v[k];
      }
      WordTops(b, a, x);
      LessAsymmetric(b, a);
    }
  }

  lemma WordTops(a: Bits, b: Bits, x: nat)
    requires a.infinite == b.infinite && LessBits(Read(a, x), Read(b, x), BITS)
    requires forall k: nat :: k > x ==> Read(a, k) == Read(b, k)
    ensures Less(a, b)
  {
    var u, v := Read(a, x), Read(b, x);
    var k :| 0 <= k < BITS && !u[k] && v[k] && forall j :: k < j < BITS ==> u[j] == v[j];
    MemberAt(a, x, k);
    MemberAt(b, x, k);
    forall j: nat | j > x * BITS + k
      ensures Member(a, j) <==> Member(b, j)
    {
      ReadMember(a, j);
      ReadMember(b, j);
      assert j / BITS >= x;
      assert j / BITS == x ==> j % BITS > k;
    }
    assert Tops(a, b, x * BITS + k);
  }

  lemma LessAsymmetric(a: Bits, b: Bits)
    requires Less(a, b)
    ensures !Less(b, a)
  {
    forall j: nat, k: nat | Tops(a, b, j)
      ensures !Tops(b, a, k)
    {
      assert j < k || j == k || j > k;
    }
  }

  /** Together with `Compare`, which always decides, this makes it a total order. */
  lemma LessTransitive(a: Bits, b: Bits, c: Bits)
    requires Less(a, b) && Less(b, c)
    ensures Less(a, c)
  {
    if a.infinite == b.infinite == c.infinite {
      var j: nat :| Tops(a, b, j);
      var k: nat :| Tops(b, c, k);
      assert Tops(a, c, if j < k then k else j);
    }
  }

  // ---- Comparing first members ----

  /** Some member of the first set comes before every member of the second. */
  ghost predicate StartsBefore(a: Bits, b: Bits) {
    exists i: nat :: Member(a, i) && forall j: nat :: j <= i ==> !Member(b, j)
  }

  /** No bit is stored, and only one of the sets goes on past the words. */
  ghost predicate OnlyTail(a: Bits, b: Bits) {
    a.infinite != b.infinite && forall i: nat :: i < Most(a, b) * BITS ==> !Member(a, i) && !Member(b, i)
  }

  /** `hwloc_bitmap_compare_first`: which set starts first, an empty set counting as last, except
      that a set of which no member is stored counts as after an empty one. */
  method CompareFirst(s: Bitmap, t: Bitmap) returns (r: int)
    requires s.Valid() && t.Valid()
    ensures !OnlyTail(s.Value(), t.Value()) ==> (r < 0 <==> StartsBefore(s.Value(), t.Value()))
    ensures !OnlyTail(s.Value(), t.Value()) ==> (r > 0 <==> StartsBefore(t.Value(), s.Value()))
    ensures OnlyTail(s.Value(), t.Value()) ==> r == if s.infinite then 1 else -1
  {
    hide Member, StartsBefore, OnlyTail, ClearBelow;
    ghost var a, b := s.Value(), t.Value();
    assert ClearBelow(a, 0) && ClearBelow(b, 0) by { NothingBelow(a); NothingBelow(b); }
    var i := 0;
    while i < s.count || i < t.count
      invariant i <= Most(a, b) && ClearBelow(a, i) && ClearBelow(b, i)
      decreases s.count + t.count - i
    {
      var w1, w2 := s.ReadUlong(i), t.ReadUlong(i);
      if w1 != ZERO || w2 != ZERO {
        var ffs1: int, ffs2: int := Ffs(w1), Ffs(w2);
        FirstDecides(a, b, i);
        FirstDecides(b, a, i);
        if ffs1 != 0 && ffs2 != 0 {
          return ffs1 - ffs2;
        }
        return ffs2 - ffs1;
      }
      ClearWord(a, i);
      ClearWord(b, i);
      i := i + 1;
    }
    TailDecides(a, b, i);
    if s.infinite != t.infinite {
      return (if s.infinite then 1 else 0) - (if t.infinite then 1 else 0);
    }
    return 0;
  }

  lemma NothingBelow(a: Bits)
    ensures ClearBelow(a, 0)
  {
  }

  lemma FirstDecides(a: Bits, b: Bits, x: nat)
    requires ClearBelow(a, x) && ClearBelow(b, x) && x < Most(a, b)
    requires Read(a, x) != ZERO || Read(b, x) != ZERO
    ensures !OnlyTail(a, b)
    ensures StartsBefore(a, b) <==>
      Ffs(Read(a, x)) != 0 && (Ffs(Read(b, x)) == 0 || Ffs(Read(a, x)) < Ffs(Read(b, x)))
  {
    hide Member, Read;
    var u, v := Ffs(Read(a, x)), Ffs(Read(b, x));
    if u != 0 { FirstMember(a, x); }
    if v != 0 { FirstMember(b, x); } else { ClearWord(b, x); }
    if u == 0 { ClearWord(a, x); }
    if u != 0 && (v == 0 || u < v) {
      assert Member(a, x * BITS + (u - 1));
    }
  }

  lemma FirstMember(a: Bits, x: nat)
    requires ClearBelow(a, x) && Read(a, x) != ZERO
    ensures
      var first := x * BITS + (Ffs(Read(a, x)) - 1);
      Member(a, first) && forall i: nat :: i < first ==> !Member(a, i)
  {
    hide Member, Read;
    var w := Read(a, x);
    MemberAt(a, x, Ffs(w) - 1);
    forall i: nat | x * BITS <= i < x * BITS + (Ffs(w) - 1)
      ensures !Member(a, i)
    {
      MemberAt(a, x, i - x * BITS);
    }
  }

  lemma TailDecides(a: Bits, b: Bits, x: nat)
    requires ClearBelow(a, x) && ClearBelow(b, x) && x == Most(a, b)
    ensures OnlyTail(a, b) <==> a.infinite != b.infinite
    ensures a.infinite == b.infinite ==> !StartsBefore(a, b) && !StartsBefore(b, a)
  {
    if a.infinite == b.infinite {
      forall i: nat
        ensures Member(a, i) <==> Member(b, i)
      {
        if i >= x * BITS { PastEnd(a, i); PastEnd(b, i); }
      }
    }
  }

  /** So the answer is wrong exactly in that case: the one infinite set starts before the empty
      one, and is said to come after it. */
  lemma OnlyTailIsWrong(a: Bits, b: Bits)
    requires OnlyTail(a, b) && a.infinite
    ensures StartsBefore(a, b)
  {
    var end := Most(a, b) * BITS;
    PastEnd(a, end);
    PastEnd(b, end);
  }

  /** All CPUs from 64 on, with one word, against the empty set: said to come last, for a set that
      starts before. */
  lemma TailComesLast()
    ensures var tail, empty := Bits([ZERO], true), Bits([ZERO], false);
      OnlyTail(tail, empty) && StartsBefore(tail, empty)
  {
    OnlyTailIsWrong(Bits([ZERO], true), Bits([ZERO], false));
  }

  // ---- Counting ----

  /** `hwloc_weight_long`. */
  function PopCount(w: Word, n: nat): nat
    requires n <= BITS
  {
    if n == 0 then 0 else PopCount(w, n - 1) + if w[n - 1] then 1 else 0
  }

  /** The members among the first `n` bits. */
  ghost function Stored(b: Bits, n: nat): (s: set<nat>)
    ensures forall i: nat :: i in s <==> i < n && Member(b, i)
  {
    if n == 0 then {} else Stored(b, n - 1) + if Member(b, n - 1) then {n - 1} else {}
  }

  lemma NothingStoredYet(b: Bits)
    ensures |Stored(b, 0)| == 0
  {
  }

  lemma StoredStep(b: Bits, n: nat)
    ensures |Stored(b, n + 1)| == |Stored(b, n)| + if Member(b, n) then 1 else 0
  {
    assert n !in Stored(b, n);
  }

  lemma {:induction false} PopCountCounts(b: Bits, x: nat, n: nat)
    requires n <= BITS
    ensures |Stored(b, x * BITS + n)| == |Stored(b, x * BITS)| + PopCount(Read(b, x), n)
  {
    hide Member, Stored;
    if n > 0 {
      PopCountCounts(b, x, n - 1);
      MemberAt(b, x, n - 1);
      StoredStep(b, x * BITS + (n - 1));
    }
  }

  /** `hwloc_bitmap_weight`: the number of members of a finite set, or -1. */
  method Weight(s: Bitmap) returns (r: int)
    requires s.Valid()
    ensures s.infinite ==> r == -1
    ensures !s.infinite ==> r == |Stored(s.Value(), s.count * BITS)|
    ensures !s.infinite ==> forall i: nat :: i in Stored(s.Value(), s.count * BITS) <==> i in Set(s.Value())
  {
    hide Member, Stored, PopCount;
    ghost var b := s.Value();
    if s.infinite {
      return -1;
    }
    r := 0;
    NothingStoredYet(b);
    for i := 0 to s.count
      invariant r == |Stored(b, i * BITS)|
    {
      PopCountCounts(b, i, BITS);
      assert b.words[i] == s.ulongs[i];
      r := r + PopCount(s.ulongs[i], BITS);
    }
    forall i: nat | i >= s.count * BITS
      ensures !Member(b, i)
    {
      PastEnd(b, i);
    }
  }
}
