/** What bitmaps answer about the sets they stand for (src/cpuset.c): tests, enumeration and
    orderings. */
module BitmapQueries {
  import opened Bitmap

  // ---- Words and positions ----

  lemma Split(x: nat, k: nat)
    requires k < BITS
    ensures (x * BITS + k) / BITS == x && (x * BITS + k) % BITS == k
  {
  }

  /** A bit of word `x`, read past the end as the source does. */
  lemma MemberAt(b: Bits, x: nat, k: nat)
    requires k < BITS
    ensures Member(b, x * BITS + k) <==> Read(b, x)[k]
  {
    Split(x, k);
    ReadMember(b, x * BITS + k);
  }

  /** All bits below word `x` are clear. */
  ghost predicate ClearBelow(b: Bits, x: nat) {
    forall i: nat :: i < x * BITS ==> !Member(b, i)
  }

  lemma ClearWord(b: Bits, x: nat)
    requires ClearBelow(b, x) && Read(b, x) == ZERO
    ensures ClearBelow(b, x + 1)
  {
    forall i: nat | i < (x + 1) * BITS
      ensures !Member(b, i)
    {
      ReadMember(b, i);
    }
  }

  lemma PastEnd(b: Bits, i: nat)
    requires i >= |b.words| * BITS
    ensures Member(b, i) <==> b.infinite
  {
  }

  /** The smallest member that is at least `from`, or -1. */
  ghost predicate IsNext(b: Bits, from: nat, r: int) {
    if r < 0 then r == -1 && forall i: nat :: i >= from ==> !Member(b, i)
    else r >= from && Member(b, r) && forall i: nat :: from <= i < r ==> !Member(b, i)
  }

  /** A word whose bits below `low` are to be ignored. */
  ghost predicate Masked(b: Bits, x: nat, from: nat, w: Word) {
    forall k: nat {:trigger w[k]} :: k < BITS ==> (w[k] <==> Member(b, x * BITS + k) && x * BITS + k >= from)
  }

  lemma FoundInWord(b: Bits, x: nat, from: nat, w: Word)
    requires Masked(b, x, from, w) && w != ZERO && from < (x + 1) * BITS
    requires forall i: nat :: from <= i < x * BITS ==> !Member(b, i)
    ensures IsNext(b, from, Ffs(w) - 1 + BITS * x)
  {
    hide Member;
    var r := Ffs(w) - 1 + BITS * x;
    assert w[Ffs(w) - 1];
    forall i: nat | from <= i < r
      ensures !Member(b, i)
    {
      if i >= x * BITS {
        assert !w[i - x * BITS];
        assert i == x * BITS + (i - x * BITS);
      }
    }
  }

  lemma NothingInWord(b: Bits, x: nat, from: nat, w: Word)
    requires Masked(b, x, from, w) && w == ZERO
    requires forall i: nat :: from <= i < x * BITS ==> !Member(b, i)
    ensures forall i: nat :: from <= i < (x + 1) * BITS ==> !Member(b, i)
  {
    hide Member;
    forall i: nat | from <= i < (x + 1) * BITS
      ensures !Member(b, i)
    {
      if i >= x * BITS {
        assert i == x * BITS + (i - x * BITS) && !w[i - x * BITS];
      }
    }
  }

  // ---- Enumeration ----

  /** If `prev` is in word `x`, mask out the bits up to it. */
  function DropUpTo(w: Word, x: nat, prev: int): Word
    requires prev >= -1
  {
    if prev >= 0 && prev / BITS == x then AndNotWord(w, BitsTo(prev % BITS)) else w
  }

  /** `hwloc_bitmap_next`, from -1 on: the next member, or -1. */
  method Next(s: Bitmap, prev: int) returns (r: int)
    requires s.Valid() && prev >= -1
    ensures IsNext(s.Value(), prev + 1, r)
  {
    hide Member, IsNext, Masked, DropUpTo;
    ghost var b := s.Value();
    var i := (prev + 1) / BITS;
    NothingBefore(b, prev + 1, i);
    if i >= s.count {
      NothingStored(b, prev + 1);
      return if s.infinite then prev + 1 else -1;
    }
    while i < s.count
      invariant (prev + 1) / BITS <= i <= s.count
      invariant forall j: nat :: prev + 1 <= j < i * BITS ==> !Member(b, j)
    {
      var w := DropUpTo(s.ulongs[i], i, prev);
      assert b.words[i] == s.ulongs[i];
      MaskWord(b, i, prev, w);
      if w != ZERO {
        FoundInWord(b, i, prev + 1, w);
        return Ffs(w) - 1 + BITS * i;
      }
      NothingInWord(b, i, prev + 1, w);
      i := i + 1;
    }
    NothingStored(b, prev + 1);
    return if s.infinite then s.count * BITS else -1;
  }

  lemma NothingBefore(b: Bits, from: nat, x: nat)
    requires x == from / BITS
    ensures forall j: nat :: from <= j < x * BITS ==> !Member(b, j)
  {
  }

  /** Nothing from `from` on among the stored words. */
  lemma NothingStored(b: Bits, from: nat)
    requires forall j: nat :: from <= j < |b.words| * BITS ==> !Member(b, j)
    ensures IsNext(b, from, if !b.infinite then -1 else if from < |b.words| * BITS then |b.words| * BITS else from)
  {
    forall j: nat | j >= |b.words| * BITS
      ensures Member(b, j) <==> b.infinite
    {
      PastEnd(b, j);
    }
  }

  lemma MaskWord(b: Bits, x: nat, prev: int, w: Word)
    requires x < |b.words| && prev >= -1 && (prev + 1) / BITS <= x
    requires w == DropUpTo(b.words[x], x, prev)
    ensures Masked(b, x, prev + 1, w)
  {
    forall k: nat | k < BITS
      ensures w[k] <==> Member(b, x * BITS + k) && x * BITS + k >= prev + 1
    {
      MemberAt(b, x, k);
    }
  }

  /** `hwloc_bitmap_first`: the smallest member, or -1. */
  method First(s: Bitmap) returns (r: int)
    requires s.Valid()
    ensures IsNext(s.Value(), 0, r)
  {
    hide Member, IsNext, Masked;
    ghost var b := s.Value();
    for i := 0 to s.count
      invariant forall j: nat :: 0 <= j < i * BITS ==> !Member(b, j)
    {
      var w := s.ulongs[i];
      assert b.words[i] == w;
      MaskWord(b, i, -1, w);
      if w != ZERO {
        FoundInWord(b, i, 0, w);
        return Ffs(w) - 1 + BITS * i;
      }
      NothingInWord(b, i, 0, w);
    }
    NothingStored(b, 0);
    return if s.infinite then s.count * BITS else -1;
  }

  /** `hwloc_bitmap_last`: the largest member of a finite set, or -1. */
  method Last(s: Bitmap) returns (r: int)
    requires s.Valid()
    ensures r < 0 ==> r == -1 && (s.infinite || Set(s.Value()) == iset{})
    ensures r >= 0 ==> !s.infinite && Member(s.Value(), r) && forall i: nat :: i > r ==> !Member(s.Value(), i)
  {
    ghost var b := s.Value();
    if s.infinite {
      return -1;
    }
    var i := s.count;
    while i > 0
      invariant i <= s.count
      invariant forall j: nat :: j >= i * BITS ==> !Member(b, j)
    {
      i := i - 1;
      var w := s.ulongs[i];
      forall j: nat | i * BITS <= j < (i + 1) * BITS
        ensures Member(b, j) <==> w[j - i * BITS]
      {
        MemberAt(b, i, j - i * BITS);
      }
      if w != ZERO {
        return Fls(w) - 1 + BITS * i;
      }
    }
    return -1;
  }

  /** The words while all but the smallest member are being removed: if it was `found` in the first
      `i` words, it is `min` and the only bit there. */
  ghost predicate Singled(b: Bits, ws: seq<Word>, i: nat, found: bool, min: int) {
    && i <= |ws| == |b.words|
    && (forall k :: i <= k < |ws| ==> ws[k] == b.words[k])
    && (if found then
          && min >= 0 && IsNext(b, 0, min) && min / BITS < i
          && (forall k :: 0 <= k < i ==> ws[k] == if k == min / BITS then OneBit(min % BITS) else ZERO)
        else
          && (forall j: nat :: j < i * BITS ==> !Member(b, j))
          && (forall k :: 0 <= k < i ==> ws[k] == ZERO))
  }

  lemma SingledStart(b: Bits)
    ensures Singled(b, b.words, 0, false, -1)
  {
  }

  lemma SingledAfter(b: Bits, ws: seq<Word>, i: nat, min: int)
    requires Singled(b, ws, i, true, min) && i < |ws|
    ensures Singled(b, ws[i := ZERO], i + 1, true, min)
  {
  }

  lemma SingledHere(b: Bits, ws: seq<Word>, i: nat)
    requires Singled(b, ws, i, false, -1) && i < |ws| && ws[i] != ZERO
    ensures Singled(b, ws[i := OneBit(Ffs(ws[i]) - 1)], i + 1, true, Ffs(ws[i]) - 1 + BITS * i)
  {
    hide Member, IsNext, Masked;
    MaskWord(b, i, -1, ws[i]);
    FoundInWord(b, i, 0, ws[i]);
    Split(i, Ffs(ws[i]) - 1);
  }

  lemma SingledLater(b: Bits, ws: seq<Word>, i: nat)
    requires Singled(b, ws, i, false, -1) && i < |ws| && ws[i] == ZERO
    ensures Singled(b, ws, i + 1, false, -1)
  {
    hide Member, IsNext, Masked;
    MaskWord(b, i, -1, ws[i]);
    NothingInWord(b, i, 0, ws[i]);
  }

  lemma SingledEnd(b: Bits, ws: seq<Word>, i: nat, found: bool, min: int)
    requires Singled(b, ws, i, found, min) && i == |ws|
    ensures found ==> min >= 0 && IsNext(b, 0, min) && min / BITS < |ws|
    ensures found ==> forall k :: 0 <= k < |ws| ==> ws[k] == if k == min / BITS then OneBit(min % BITS) else ZERO
    ensures !found ==> forall j: nat :: j < |b.words| * BITS ==> !Member(b, j)
    ensures !found ==> forall k :: 0 <= k < |ws| ==> ws[k] == ZERO
  {
  }

  /** The loop of `hwloc_bitmap_singlify` over the stored words. */
  method SinglifyWords(s: Bitmap) returns (found: bool, ghost min: int)
    requires s.Valid()
    modifies s.ulongs
    ensures found ==> min >= 0 && IsNext(old(s.Value()), 0, min) && min / BITS < s.count
    ensures found ==> forall k :: 0 <= k < s.count ==> s.ulongs[k] == if k == min / BITS then OneBit(min % BITS)
        else ZERO
    ensures !found ==> forall j: nat :: j < s.count * BITS ==> !Member(old(s.Value()), j)
    ensures !found ==> forall k :: 0 <= k < s.count ==> s.ulongs[k] == ZERO
  {
    hide Member, IsNext, Set, Singled, Repeat, OneBit;
    ghost var b := s.Value();
    found := false;
    min := -1;
    var i := 0;
    assert Singled(b, s.ulongs[..s.count], 0, false, -1) by { SingledStart(b); }
    while i < s.count
      invariant i <= s.count && s.Valid() && unchanged(s)
      invariant Singled(b, s.ulongs[..s.count], i, found, min) && (found || min == -1)
    {
      ghost var ws := s.ulongs[..s.count];
      if found {
        SingledAfter(b, ws, i, min);
        s.ulongs[i] := ZERO;
        assert s.ulongs[..s.count] == ws[i := ZERO];
      } else {
        var w := s.ulongs[i];
        if w != ZERO {
          SingledHere(b, ws, i);
          min := Ffs(w) - 1 + BITS * i;
          s.ulongs[i] := OneBit(Ffs(w) - 1);
          assert s.ulongs[..s.count] == ws[i := OneBit(Ffs(w) - 1)];
          found := true;
        } else {
          SingledLater(b, ws, i);
        }
      }
      i := i + 1;
    }
    ghost var last := s.ulongs[..s.count];
    SingledEnd(b, last, i, found, min);
    assert forall k :: 0 <= k < s.count ==> s.ulongs[k] == last[k];
  }

  /** `hwloc_bitmap_singlify`: only the smallest member is left. */
  method Singlify(s: Bitmap)
    requires s.Valid()
    modifies s, s.ulongs
    ensures s.Valid() && (s.ulongs == old(s.ulongs) || fresh(s.ulongs))
    ensures forall r: nat :: r in Set(s.Value()) <==> IsNext(old(s.Value()), 0, r)
  {
    hide Member, IsNext, Set, Repeat, OneBit;
    ghost var b := s.Value();
    var found, min := SinglifyWords(s);
    if !found {
      NothingStored(b, 0);
      min := if b.infinite then s.count * BITS else -1;
    }
    NextUnique(b, 0, min);
    if s.infinite {
      if found {
        s.infinite := false;
        SingleBit(s.Value(), min);
      } else {
        var first := s.count * BITS;
        s.infinite := false;
        NoBits(s.Value());
        s.SetBit(first);
      }
    } else if found {
      SingleBit(s.Value(), min);
    } else {
      NoBits(s.Value());
    }
  }

  lemma NoBits(b: Bits)
    requires !b.infinite && forall k :: 0 <= k < |b.words| ==> b.words[k] == ZERO
    ensures Set(b) == iset{}
  {
  }

  lemma SingleBit(b: Bits, m: nat)
    requires !b.infinite && m / BITS < |b.words|
    requires forall k :: 0 <= k < |b.words| ==> b.words[k] == if k == m / BITS then OneBit(m % BITS) else ZERO
    ensures Set(b) == iset{m}
  {
    BitIndex(m);
  }

  lemma NextUnique(b: Bits, from: nat, r: int)
    requires IsNext(b, from, r)
    ensures forall x: nat :: IsNext(b, from, x) <==> r >= 0 && x == r
  {
  }

  // ---- Tests ----

  /** `hwloc_bitmap_isset`. */
  method IsSet(s: Bitmap, cpu: nat) returns (r: bool)
    requires s.Valid()
    ensures r <==> cpu in Set(s.Value())
  {
    ReadMember(s.Value(), cpu);
    r := AndWord(s.ReadUlong(cpu / BITS), OneBit(cpu % BITS)) != ZERO;
    assert r ==> exists k :: 0 <= k < BITS && AndWord(s.ReadUlong(cpu / BITS), OneBit(cpu % BITS))[k];
    assert !r ==> !AndWord(s.ReadUlong(cpu / BITS), OneBit(cpu % BITS))[cpu % BITS];
  }

  lemma HasMember(b: Bits, x: nat, k: nat)
    requires k < BITS && Read(b, x)[k]
    ensures Set(b) != iset{}
  {
    MemberAt(b, x, k);
    assert x * BITS + k in Set(b);
  }

  /** `hwloc_bitmap_iszero`. */
  method IsZero(s: Bitmap) returns (r: bool)
    requires s.Valid()
    ensures r <==> Set(s.Value()) == iset{}
  {
    hide Member, Set;
    ghost var b := s.Value();
    if s.infinite {
      HasMember(b, s.count, 0);
      return false;
    }
    for i := 0 to s.count
      invariant forall k :: 0 <= k < i ==> s.ulongs[k] == ZERO
    {
      if s.ulongs[i] != ZERO {
        assert b.words[i] == s.ulongs[i];
        HasMember(b, i, Ffs(s.ulongs[i]) - 1);
        return false;
      }
    }
    NoBits(b);
    return true;
  }

  /** `hwloc_bitmap_isequal`. */
  method IsEqual(s: Bitmap, t: Bitmap) returns (r: bool)
    requires s.Valid() && t.Valid()
    ensures r <==> Set(s.Value()) == Set(t.Value())
  {
    ghost var a, b := s.Value(), t.Value();
    var i := 0;
    while i < s.count || i < t.count
      invariant forall k: nat :: k < i ==> Read(a, k) == Read(b, k)
      decreases s.count + t.count - i
    {
      if s.ReadUlong(i) != t.ReadUlong(i) {
        DifferentWord(a, b, i);
        return false;
      }
      i := i + 1;
    }
    if s.infinite != t.infinite {
      PastEnd(a, i * BITS);
      PastEnd(b, i * BITS);
      assert (i * BITS in Set(a)) != (i * BITS in Set(b));
      return false;
    }
    SameWords(a, b);
    return true;
  }

  lemma DifferentWord(a: Bits, b: Bits, x: nat)
    requires Read(a, x) != Read(b, x)
    ensures Set(a) != Set(b)
  {
    var k :| 0 <= k < BITS && Read(a, x)[k] != Read(b, x)[k];
    MemberAt(a, x, k);
    MemberAt(b, x, k);
    assert (x * BITS + k in Set(a)) != (x * BITS + k in Set(b));
  }

  lemma SameWords(a: Bits, b: Bits)
    requires a.infinite == b.infinite
    requires forall k: nat :: k < |a.words| || k < |b.words| ==> Read(a, k) == Read(b, k)
    ensures Set(a) == Set(b)
  {
    forall i: nat
      ensures Member(a, i) <==> Member(b, i)
    {
      ReadMember(a, i);
      ReadMember(b, i);
      assert i / BITS >= |a.words| && i / BITS >= |b.words| ==> Read(a, i / BITS) == Read(b, i / BITS);
    }
  }

  ghost function Most(a: Bits, b: Bits): nat {
    if |a.words| > |b.words| then |a.words| else |b.words|
  }

  /** A common member among the words that one of them has. */
  ghost predicate StoredMeet(a: Bits, b: Bits) {
    exists i: nat :: i < Most(a, b) * BITS && Member(a, i) && Member(b, i)
  }

  /** `hwloc_bitmap_intersects`: whether there is a common member among the stored words. */
  method Intersects(s: Bitmap, t: Bitmap) returns (r: bool)
    requires s.Valid() && t.Valid()
    ensures r <==> StoredMeet(s.Value(), t.Value())
  {
    hide Member, AndWord, Repeat;
    ghost var a, b := s.Value(), t.Value();
    var x := 0;
    while x < s.count || x < t.count
      invariant x <= Most(a, b)
      invariant forall i: nat :: i < x * BITS ==> !(Member(a, i) && Member(b, i))
      decreases s.count + t.count - x
    {
      CommonWord(a, b, x);
      if AndWord(s.ReadUlong(x), t.ReadUlong(x)) != ZERO {
        return true;
      }
      x := x + 1;
    }
    return false;
  }

  lemma CommonWord(a: Bits, b: Bits, x: nat)
    ensures AndWord(Read(a, x), Read(b, x)) != ZERO
            <==> exists i: nat :: x * BITS <= i < (x + 1) * BITS && Member(a, i) && Member(b, i)
  {
    hide Member;
    var w := AndWord(Read(a, x), Read(b, x));
    forall k: nat | k < BITS
      ensures w[k] <==> Member(a, x * BITS + k) && Member(b, x * BITS + k)
    {
      MemberAt(a, x, k);
      MemberAt(b, x, k);
    }
    if w != ZERO {
      assert w[Ffs(w) - 1];
    } else {
      forall i: nat | x * BITS <= i < (x + 1) * BITS
        ensures !(Member(a, i) && Member(b, i))
      {
        assert i == x * BITS + (i - x * BITS) && !w[i - x * BITS];
      }
    }
  }

  /** Two infinite sets always meet, and are said to only when they do within their words; otherwise
      the answer is that for the sets. */
  lemma IntersectsExact(a: Bits, b: Bits)
    ensures !(a.infinite && b.infinite) ==> (StoredMeet(a, b) <==> Set(a) * Set(b) != iset{})
    ensures a.infinite && b.infinite ==> Set(a) * Set(b) != iset{}
  {
    var end := Most(a, b) * BITS;
    PastEnd(a, end);
    PastEnd(b, end);
    if a.infinite && b.infinite {
      assert end in Set(a) * Set(b);
    } else {
      forall i: nat | Member(a, i) && Member(b, i)
        ensures i < end
      {
        if i >= end { PastEnd(a, i); PastEnd(b, i); }
      }
      assert forall i: nat :: Member(a, i) && Member(b, i) <==> i in Set(a) * Set(b);
    }
  }

  ghost predicate IntersectsRight(a: Bits, b: Bits) {
    StoredMeet(a, b) <==> Set(a) * Set(b) != iset{}
  }

  /** What a caller can see of a bitmap without reading its words. */
  ghost predicate Shaped(b: Bits, infinite: bool, count: nat) {
    b.infinite == infinite && |b.words| == count
  }

  function Same(w: Word, n: nat): (words: seq<Word>)
    ensures |words| == n && forall k :: 0 <= k < n ==> words[k] == w
  {
    seq(n, _ => w)
  }

  /** For given flags and word counts, the answer is right for all bitmaps exactly when not both are
      infinite. */
  lemma IntersectsGuard(f: bool, m: nat, g: bool, n: nat)
    ensures (forall a, b :: Shaped(a, f, m) && Shaped(b, g, n) ==> IntersectsRight(a, b)) <==> !(f && g)
  {
    hide Set, StoredMeet;
    if f && g {
      var a, b := Bits(Same(ZERO, m), true), Bits(Same(ZERO, n), true);
      TailsMissed(a, b);
      assert Shaped(a, f, m) && Shaped(b, g, n);
    } else {
      forall a, b | Shaped(a, f, m) && Shaped(b, g, n)
        ensures IntersectsRight(a, b)
      {
        IntersectsExact(a, b);
      }
    }
  }

  lemma TailsMissed(a: Bits, b: Bits)
    requires a.infinite && b.infinite && a.words == Same(ZERO, |a.words|) && b.words == Same(ZERO, |b.words|)
    ensures !IntersectsRight(a, b)
  {
    hide Set;
    IntersectsExact(a, b);
    forall i: nat | i < Most(a, b) * BITS
      ensures !Member(a, i) || !Member(b, i)
    {
      assert i / BITS < Most(a, b);
    }
  }

  ghost predicate StoredIncluded(a: Bits, b: Bits) {
    (forall i: nat :: i < |a.words| * BITS && Member(a, i) ==> Member(b, i)) && (a.infinite ==> b.infinite)
  }

  /** `hwloc_bitmap_isincluded`: only the words of the subset are looked at. */
  method IsIncluded(sub: Bitmap, super: Bitmap) returns (r: bool)
    requires sub.Valid() && super.Valid()
    ensures r <==> StoredIncluded(sub.Value(), super.Value())
  {
    ghost var a, b := sub.Value(), super.Value();
    for x := 0 to sub.count
      invariant forall i: nat :: i < x * BITS && Member(a, i) ==> Member(b, i)
    {
      var u, v := super.ReadUlong(x), sub.ReadUlong(x);
      if u != OrWord(u, v) {
        var k :| 0 <= k < BITS && u[k] != OrWord(u, v)[k];
        MemberAt(a, x, k);
        MemberAt(b, x, k);
        return false;
      }
      forall i: nat | x * BITS <= i < (x + 1) * BITS && Member(a, i)
        ensures Member(b, i)
      {
        MemberAt(a, x, i - x * BITS);
        MemberAt(b, x, i - x * BITS);
        assert u[i - x * BITS] == OrWord(u, v)[i - x * BITS];
      }
    }
    if sub.infinite && !super.infinite {
      return false;
    }
    return true;
  }

  ghost predicate IsIncludedRight(a: Bits, b: Bits) {
    StoredIncluded(a, b) <==> Set(a) <= Set(b)
  }

  /** The answer is that for the sets unless both are infinite and the subset has fewer words: then
      the other words of the superset are not looked at. */
  lemma IsIncludedExact(a: Bits, b: Bits)
    requires !(a.infinite && b.infinite && |a.words| < |b.words|)
    ensures IsIncludedRight(a, b)
  {
    var end := |a.words| * BITS;
    if StoredIncluded(a, b) {
      forall i: nat | Member(a, i)
        ensures Member(b, i)
      {
        if i >= end {
          PastEnd(a, i);
          PastEnd(b, i);
        }
      }
    } else if a.infinite && !b.infinite {
      var far := Most(a, b) * BITS;
      PastEnd(a, far);
      PastEnd(b, far);
      assert far in Set(a) && far !in Set(b);
    } else {
      var i: nat :| i < end && Member(a, i) && !Member(b, i);
      assert i in Set(a) && i !in Set(b);
    }
  }

  /** In that case the set with no hole at all is said to be included in one that has one. */
  lemma HoleMissed(a: Bits, b: Bits)
    requires a.infinite && b.infinite && a.words == Same(FULL, |a.words|)
    requires |a.words| < |b.words| && b.words == Same(FULL, |b.words| - 1) + [ZERO]
    ensures StoredIncluded(a, b) && !(Set(a) <= Set(b))
  {
    var i := (|b.words| - 1) * BITS;
    PastEnd(a, i);
    assert i in Set(a) && i / BITS == |b.words| - 1 && i !in Set(b);
    forall k: nat | k < |a.words| * BITS
      ensures Member(b, k)
    {
      assert k / BITS < |b.words| - 1 && b.words[k / BITS] == FULL;
    }
  }

  /** For given flags and word counts, the answer is right for all bitmaps exactly when they are not
      both infinite with fewer words in the subset. */
  lemma IsIncludedGuard(f: bool, m: nat, g: bool, n: nat)
    ensures (forall a, b :: Shaped(a, f, m) && Shaped(b, g, n) ==> IsIncludedRight(a, b)) <==> !(f && g && m < n)
  {
    hide Set, StoredIncluded;
    if f && g && m < n {
      var a, b := Bits(Same(FULL, m), true), Bits(Same(FULL, n - 1) + [ZERO], true);
      HoleMissed(a, b);
      assert Shaped(a, f, m) && Shaped(b, g, n);
    } else {
      forall a, b | Shaped(a, f, m) && Shaped(b, g, n)
        ensures IsIncludedRight(a, b)
      {
        IsIncludedExact(a, b);
      }
    }
  }

  /** All CPUs in one word, and all CPUs but 64 to 127 in two words. */
  lemma IsIncludedMissesHole()
    ensures var all, holed := Bits([FULL], true), Bits([FULL, ZERO], true);
      StoredIncluded(all, holed) && 64 in Set(all) && 64 !in Set(holed)
  {
    var all, holed := Bits([FULL], true), Bits([FULL, ZERO], true);
    assert all.words == Same(FULL, 1) && holed.words == Same(FULL, 1) + [ZERO];
    HoleMissed(all, holed);
  }

  /** All CPUs from 64 on, twice. */
  lemma IntersectsMissesTail()
    ensures var tail := Bits([ZERO], true);
      !StoredMeet(tail, tail) && 64 in Set(tail) * Set(tail)
  {
    var tail := Bits([ZERO], true);
    assert tail.words == Same(ZERO, 1);
    TailsMissed(tail, tail);
    IntersectsExact(tail, tail);
  }
}
