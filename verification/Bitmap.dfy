/** Bitmaps (src/cpuset.c): a growable array of words and a flag that says whether all further
    bits are set. A bitmap stands for a finite or cofinite set of bit numbers. */
module Bitmap {

  // ---- Words ----

  const BITS: nat := 64

  /** An `unsigned long`, bit by bit, lowest first. */
  type Word = w: seq<bool> | |w| == BITS witness Repeat(false, BITS)

  function Repeat(bit: bool, n: nat): (w: seq<bool>)
    ensures |w| == n && forall k :: 0 <= k < n ==> w[k] == bit
  {
    if n == 0 then [] else Repeat(bit, n - 1) + [bit]
  }

  const ZERO: Word := Repeat(false, BITS)
  const FULL: Word := Repeat(true, BITS)

  function OrWord(a: Word, b: Word): Word {
    seq(BITS, k requires 0 <= k < BITS => a[k] || b[k])
  }

  function AndWord(a: Word, b: Word): Word {
    seq(BITS, k requires 0 <= k < BITS => a[k] && b[k])
  }

  function XorWord(a: Word, b: Word): Word {
    seq(BITS, k requires 0 <= k < BITS => a[k] != b[k])
  }

  function NotWord(a: Word): Word {
    seq(BITS, k requires 0 <= k < BITS => !a[k])
  }

  function AndNotWord(a: Word, b: Word): Word {
    AndWord(a, NotWord(b))
  }

  /** `1UL << bit`. */
  function OneBit(bit: nat): Word
    requires bit < BITS
  {
    seq(BITS, k => k == bit)
  }

  /** Bits up to and including `bit`. */
  function BitsTo(bit: nat): Word
    requires bit < BITS
  {
    seq(BITS, k => k <= bit)
  }

  /** Bits from `bit` on. */
  function BitsFrom(bit: nat): Word
    requires bit < BITS
  {
    seq(BITS, k => bit <= k)
  }

  function BitsFromTo(begin: nat, end: nat): Word
    requires begin < BITS && end < BITS
  {
    AndWord(BitsTo(end), BitsFrom(begin))
  }

  /** `hwloc_ffsl`: the lowest set bit, counted from 1, or 0. */
  function Ffs(w: Word): (r: nat)
    ensures r <= BITS
    ensures r == 0 <==> w == ZERO
    ensures r > 0 ==> w[r - 1] && forall k :: 0 <= k < r - 1 ==> !w[k]
  {
    FfsFrom(w, 0)
  }

  function FfsFrom(w: Word, from: nat): (r: nat)
    requires from <= BITS && forall k :: 0 <= k < from ==> !w[k]
    ensures r <= BITS
    ensures r == 0 <==> w == ZERO
    ensures r > 0 ==> w[r - 1] && forall k :: 0 <= k < r - 1 ==> !w[k]
    decreases BITS - from
  {
    if from == BITS then 0 else if w[from] then from + 1 else FfsFrom(w, from + 1)
  }

  /** `hwloc_flsl`: the highest set bit, counted from 1, or 0. */
  function Fls(w: Word): (r: nat)
    ensures r <= BITS
    ensures r == 0 <==> w == ZERO
    ensures r > 0 ==> w[r - 1] && forall k :: r <= k < BITS ==> !w[k]
  {
    FlsBelow(w, BITS)
  }

  function FlsBelow(w: Word, below: nat): (r: nat)
    requires below <= BITS && forall k :: below <= k < BITS ==> !w[k]
    ensures r <= BITS
    ensures r == 0 <==> w == ZERO
    ensures r > 0 ==> w[r - 1] && forall k :: r <= k < BITS ==> !w[k]
  {
    if below == 0 then 0 else if w[below - 1] then below else FlsBelow(w, below - 1)
  }

  // ---- The set a bitmap stands for ----

  datatype Bits = Bits(words: seq<Word>, infinite: bool)

  ghost predicate Member(b: Bits, i: nat) {
    if i / BITS < |b.words| then b.words[i / BITS][i % BITS] else b.infinite
  }

  ghost function Set(b: Bits): iset<nat> {
    iset i: nat | Member(b, i)
  }

  lemma AllSet(b: Bits)
    requires forall i: nat :: i in Set(b)
    ensures Set(b) == Set(Bits([FULL], true))
  {
  }

  /** A word of a bitmap, read with an index past the end as the source does. */
  function Read(b: Bits, x: nat): Word {
    if x < |b.words| then b.words[x] else if b.infinite then FULL else ZERO
  }

  lemma ReadMember(b: Bits, i: nat)
    ensures Member(b, i) <==> Read(b, i / BITS)[i % BITS]
  {
  }

  /** The smallest power of two that is at least `n`. */
  function PowerOfTwo(n: nat): (p: nat)
    ensures p >= n && p >= 1
  {
    PowerFrom(n, 1)
  }

  function PowerFrom(n: nat, p: nat): (r: nat)
    requires p >= 1
    ensures r >= n && r >= p
    decreases n - p
  {
    if n <= p then p else PowerFrom(n, 2 * p)
  }

  lemma OrWords(r: Bits, a: Bits, b: Bits)
    requires |a.words| <= |r.words| && |b.words| <= |r.words| && r.infinite == (a.infinite || b.infinite)
    requires forall k :: 0 <= k < |r.words| ==> r.words[k] == OrWord(Read(a, k), Read(b, k))
    ensures Set(r) == Set(a) + Set(b)
  {
    forall i: nat
      ensures i in Set(r) <==> i in Set(a) + Set(b)
    {
      ReadMember(r, i);
      ReadMember(a, i);
      ReadMember(b, i);
    }
  }

  lemma AndWords(r: Bits, a: Bits, b: Bits)
    requires |a.words| <= |r.words| && |b.words| <= |r.words| && r.infinite == (a.infinite && b.infinite)
    requires forall k :: 0 <= k < |r.words| ==> r.words[k] == AndWord(Read(a, k), Read(b, k))
    ensures Set(r) == Set(a) * Set(b)
  {
    forall i: nat
      ensures i in Set(r) <==> i in Set(a) * Set(b)
    {
      ReadMember(r, i);
      ReadMember(a, i);
      ReadMember(b, i);
    }
  }

  lemma AndNotWords(r: Bits, a: Bits, b: Bits)
    requires |a.words| <= |r.words| && |b.words| <= |r.words| && r.infinite == (a.infinite && !b.infinite)
    requires forall k :: 0 <= k < |r.words| ==> r.words[k] == AndNotWord(Read(a, k), Read(b, k))
    ensures Set(r) == Set(a) - Set(b)
  {
    forall i: nat
      ensures i in Set(r) <==> i in Set(a) - Set(b)
    {
      ReadMember(r, i);
      ReadMember(a, i);
      ReadMember(b, i);
    }
  }

  lemma XorWords(r: Bits, a: Bits, b: Bits)
    requires |a.words| <= |r.words| && |b.words| <= |r.words| && r.infinite == (a.infinite != b.infinite)
    requires forall k :: 0 <= k < |r.words| ==> r.words[k] == XorWord(Read(a, k), Read(b, k))
    ensures Set(r) == (Set(a) - Set(b)) + (Set(b) - Set(a))
  {
    forall i: nat
      ensures i in Set(r) <==> i in (Set(a) - Set(b)) + (Set(b) - Set(a))
    {
      ReadMember(r, i);
      ReadMember(a, i);
      ReadMember(b, i);
    }
  }

  lemma NotWords(r: Bits, a: Bits)
    requires |a.words| <= |r.words| && r.infinite == !a.infinite
    requires forall k :: 0 <= k < |r.words| ==> r.words[k] == NotWord(Read(a, k))
    ensures forall i: nat :: i in Set(r) <==> i !in Set(a)
  {
    forall i: nat
      ensures i in Set(r) <==> i !in Set(a)
    {
      ReadMember(r, i);
      ReadMember(a, i);
    }
  }

  // ---- Ranges ----

  const UINT_VALUES: int := 0x1_0000_0000

  /** `(unsigned) i` for an `int`. */
  function Unsigned(i: int): nat
    requires IsInt(i)
  {
    if i < 0 then i + UINT_VALUES else i
  }

  predicate IsInt(i: int) {
    -UINT_VALUES / 2 <= i < UINT_VALUES / 2
  }

  /** The bits that a range assignment touches in a bitmap with `bits` stored bits. */
  ghost predicate InRange(bits: nat, begin: nat, end: int, i: nat)
    requires IsInt(end)
  {
    if end == -1 then i >= begin || i >= bits else begin <= i <= Unsigned(end)
  }

  ghost predicate Between(begin: nat, i: nat, end: nat) {
    begin <= i <= end
  }

  ghost function Range(begin: nat, end: nat): iset<nat> {
    iset i: nat | Between(begin, i, end)
  }

  ghost function FromOn(begin: nat): iset<nat> {
    iset i: nat | Between(begin, i, i)
  }

  /** The bits of word `k` that are in a range. */
  ghost function RangeWord(k: nat, begin: nat, end: nat): Word {
    seq(BITS, j requires 0 <= j < BITS => begin <= k * BITS + j <= end)
  }

  function Merge(w: Word, mask: Word, bit: bool): Word {
    if bit then OrWord(w, mask) else AndNotWord(w, mask)
  }

  lemma RangeWords(begin: nat, end: nat)
    requires begin <= end
    ensures begin / BITS == end / BITS ==> RangeWord(begin / BITS, begin, end) == BitsFromTo(begin % BITS, end % BITS)
    ensures begin / BITS < end / BITS ==>
      && RangeWord(begin / BITS, begin, end) == BitsFrom(begin % BITS)
      && RangeWord(end / BITS, begin, end) == BitsTo(end % BITS)
    ensures forall k: nat :: begin / BITS < k < end / BITS ==> RangeWord(k, begin, end) == FULL
    ensures forall k: nat :: k < begin / BITS || end / BITS < k ==> RangeWord(k, begin, end) == ZERO
  {
    forall k: nat | begin / BITS < k < end / BITS
      ensures RangeWord(k, begin, end) == FULL
    {
    }
    forall k: nat | k < begin / BITS || end / BITS < k
      ensures RangeWord(k, begin, end) == ZERO
    {
    }
  }

  lemma PastWords(b: Bits)
    ensures forall i: nat :: i >= |b.words| * BITS ==> (Member(b, i) <==> b.infinite)
  {
  }

  lemma RangeGrown(before: Bits, grown: Bits, toInfinity: bool, bit: bool)
    requires |grown.words| >= |before.words|
    requires toInfinity || grown.infinite == before.infinite
    requires toInfinity ==> grown.infinite == bit && |grown.words| == |before.words|
    requires forall k :: 0 <= k < |grown.words| ==> grown.words[k] == Read(Bits(before.words, grown.infinite), k)
    ensures forall k :: 0 <= k < |grown.words| ==> grown.words[k] == Read(before, k)
  {
  }

  lemma RangeWritten(before: Bits, after: Bits, begin: nat, end: nat, bit: bool)
    requires |after.words| >= |before.words| && end < |after.words| * BITS
    requires forall k :: 0 <= k < |after.words| ==>
      after.words[k] == Merge(Read(before, k), RangeWord(k, begin, end), bit)
    ensures forall i: nat :: i < |after.words| * BITS ==>
      (Member(after, i) <==> if begin <= i <= end then bit else Member(before, i))
  {
    forall i: nat | i < |after.words| * BITS
      ensures Member(after, i) <==> if begin <= i <= end then bit else Member(before, i)
    {
      ReadMember(before, i);
      assert i / BITS * BITS + i % BITS == i;
    }
  }

  lemma BitIndex(cpu: nat)
    ensures forall i: nat :: i / BITS == cpu / BITS && i % BITS == cpu % BITS ==> i == cpu
  {
  }

  /** One word has been rewritten, after growing. */
  ghost predicate OneWordChanged(before: Bits, after: Bits, x: nat) {
    && after.infinite == before.infinite && x < |after.words| && |after.words| >= |before.words|
    && (forall k :: 0 <= k < |after.words| && k != x ==> after.words[k] == Read(before, k))
  }

  lemma BitAdded(before: Bits, after: Bits, cpu: nat)
    requires OneWordChanged(before, after, cpu / BITS)
    requires after.words[cpu / BITS] == OrWord(Read(before, cpu / BITS), OneBit(cpu % BITS))
    ensures Set(after) == Set(before) + iset{cpu}
  {
    BitIndex(cpu);
    forall i: nat
      ensures Member(after, i) <==> Member(before, i) || i == cpu
    {
      ReadMember(before, i);
    }
  }

  lemma BitRemoved(before: Bits, after: Bits, cpu: nat)
    requires OneWordChanged(before, after, cpu / BITS)
    requires after.words[cpu / BITS] == AndNotWord(Read(before, cpu / BITS), OneBit(cpu % BITS))
    ensures Set(after) == Set(before) - iset{cpu}
  {
    BitIndex(cpu);
    forall i: nat
      ensures Member(after, i) <==> Member(before, i) && i != cpu
    {
      ReadMember(before, i);
    }
  }

  /** The words of an operand that are still to be read are those it had, although it may be the
      bitmap being written. */
  ghost predicate Pending(s: Bitmap, a: Bits, i: nat)
    reads s, s.ulongs
  {
    && s.Valid() && s.infinite == a.infinite && |a.words| <= s.count
    && (forall k :: i <= k < s.count ==> s.ulongs[k] == Read(a, k))
  }

  lemma PendingFirst(s: Bitmap)
    requires s.Valid()
    ensures Pending(s, s.Value(), 0)
  {
  }

  lemma PendingRead(s: Bitmap, a: Bits, i: nat)
    requires Pending(s, a, i)
    ensures s.ReadUlong(i) == Read(a, i)
  {
  }

  lemma PendingGrown(s: Bitmap, a: Bits)
    requires s.Valid() && s.infinite == a.infinite && |a.words| <= s.count
    requires forall x: nat :: Read(s.Value(), x) == Read(a, x)
    ensures Pending(s, a, 0)
  {
    assert forall k: nat :: k < s.count ==> s.ulongs[k] == Read(s.Value(), k);
  }

  ghost predicate Apart(a: Bitmap, b: Bitmap)
    reads a, b
  {
    a == b || a.ulongs != b.ulongs
  }

  function Larger(m: nat, n: nat): nat {
    if m < n then n else m
  }

  /** Where a range to infinity really starts. */
  function ReallyFrom(before: Bits, begin: nat): nat {
    if begin < |before.words| * BITS then begin else |before.words| * BITS
  }

  class Bitmap {
    var ulongs: array<Word>
    var count: nat
    var infinite: bool

    ghost predicate Valid()
      reads this
    {
      1 <= count <= ulongs.Length
    }

    ghost function Value(): Bits
      requires Valid()
      reads this, ulongs
    {
      Bits(ulongs[..count], infinite)
    }

    /** `hwloc_bitmap_alloc`. */
    constructor ()
      ensures Valid() && fresh(ulongs)
      ensures Set(Value()) == iset{}
    {
      ulongs := new Word[8](_ => ZERO);
      count := 1;
      infinite := false;
    }

    /** `hwloc_bitmap_enlarge_by_ulongs`. */
    method Enlarge(needed: nat)
      requires Valid() && needed >= 1
      modifies this`ulongs
      ensures ulongs.Length >= needed && ulongs.Length >= old(ulongs.Length)
      ensures ulongs == old(ulongs) || fresh(ulongs)
      ensures ulongs[..count] == old(ulongs[..count])
    {
      var tmp := PowerOfTwo(needed);
      if tmp > ulongs.Length {
        var before := ulongs;
        var larger := new Word[tmp](_ => ZERO);
        forall k | 0 <= k < before.Length {
          larger[k] := before[k];
        }
        ulongs := larger;
        assert forall k :: 0 <= k < count ==> ulongs[k] == before[k];
      }
    }

    /** `hwloc_bitmap_realloc_by_ulongs`: growing does not change the set. */
    method Realloc(needed: nat)
      requires Valid()
      modifies this`ulongs, this`count, ulongs
      ensures Valid() && (ulongs == old(ulongs) || fresh(ulongs))
      ensures count == if needed <= old(count) then old(count) else needed
      ensures forall x: nat :: Read(Value(), x) == Read(old(Value()), x)
      ensures forall k :: 0 <= k < count ==> ulongs[k] == Read(old(Value()), k)
    {
      if needed <= count {
        return;
      }
      ghost var before := Value();
      Enlarge(needed);
      var i := count;
      while i < needed
        invariant count <= i <= needed <= ulongs.Length && Valid()
        invariant ulongs == old(ulongs) || fresh(ulongs)
        invariant unchanged(this`count) && infinite == before.infinite
        invariant forall k :: 0 <= k < i ==> ulongs[k] == Read(before, k)
      {
        ulongs[i] := if infinite then FULL else ZERO;
        i := i + 1;
      }
      count := needed;
    }

    /** `hwloc_bitmap_reset_by_ulongs`: the words are left to the caller. */
    method Reset(needed: nat)
      requires Valid() && needed >= 1
      modifies this`ulongs, this`count
      ensures Valid() && count == needed && (ulongs == old(ulongs) || fresh(ulongs))
    {
      Enlarge(needed);
      count := needed;
    }

    /** `HWLOC_SUBBITMAP_READULONG`. */
    function ReadUlong(x: nat): Word
      requires Valid()
      reads this, ulongs
    {
      if x < count then ulongs[x] else if infinite then FULL else ZERO
    }

    /** One word of a binary operation: the words still to be read stay as they were. */
    method CombineWord(set1: Bitmap, set2: Bitmap, op: (Word, Word) -> Word, i: nat, ghost a: Bits, ghost b: Bits)
      requires Valid() && i < count && Apart(this, set1) && Apart(this, set2)
      requires Pending(set1, a, i) && Pending(set2, b, i)
      modifies ulongs
      ensures ulongs[..count] == old(ulongs[..count])[i := op(Read(a, i), Read(b, i))]
      ensures Pending(set1, a, i + 1) && Pending(set2, b, i + 1)
    {
      hide Read, Bitmap.ReadUlong, Repeat;
      PendingRead(set1, a, i);
      PendingRead(set2, b, i);
      ulongs[i] := op(set1.ReadUlong(i), set2.ReadUlong(i));
    }

    /** The word loop of the four binary operations, which differ in `op` only: either operand may
        be the result itself. */
    method Combine(set1: Bitmap, set2: Bitmap, op: (Word, Word) -> Word)
      requires Valid() && set1.Valid() && set2.Valid() && Apart(this, set1) && Apart(this, set2)
      modifies this`ulongs, this`count, ulongs
      ensures Valid() && (ulongs == old(ulongs) || fresh(ulongs))
      ensures old(set1.count) <= count && old(set2.count) <= count
      ensures forall k :: 0 <= k < count ==> ulongs[k] == op(Read(old(set1.Value()), k), Read(old(set2.Value()), k))
    {
      hide Read, Bitmap.ReadUlong, Repeat, Pending;
      ghost var a, b := set1.Value(), set2.Value();
      var largest := if set1.count > set2.count then set1.count else set2.count;
      Realloc(largest);
      PendingGrown(set1, a);
      PendingGrown(set2, b);
      var i := 0;
      while i < count
        invariant i <= count && Valid() && (ulongs == old(ulongs) || fresh(ulongs))
        invariant largest <= count && Pending(set1, a, i) && Pending(set2, b, i)
        invariant forall k :: 0 <= k < i ==> ulongs[..count][k] == op(Read(a, k), Read(b, k))
      {
        CombineWord(set1, set2, op, i, a, b);
        i := i + 1;
      }
    }

    /** `hwloc_bitmap_or`, for any aliasing of result and operands. */
    method Or(set1: Bitmap, set2: Bitmap)
      requires Valid() && set1.Valid() && set2.Valid() && Apart(this, set1) && Apart(this, set2)
      modifies this, ulongs
      ensures Valid() && (ulongs == old(ulongs) || fresh(ulongs))
      ensures Set(Value()) == Set(old(set1.Value())) + Set(old(set2.Value()))
    {
      ghost var a, b := set1.Value(), set2.Value();
      Combine(set1, set2, OrWord);
      infinite := set1.infinite || set2.infinite;
      OrWords(Value(), a, b);
    }

    /** `hwloc_bitmap_and`, for any aliasing of result and operands. */
    method And(set1: Bitmap, set2: Bitmap)
      requires Valid() && set1.Valid() && set2.Valid() && Apart(this, set1) && Apart(this, set2)
      modifies this, ulongs
      ensures Valid() && (ulongs == old(ulongs) || fresh(ulongs))
      ensures Set(Value()) == Set(old(set1.Value())) * Set(old(set2.Value()))
    {
      ghost var a, b := set1.Value(), set2.Value();
      Combine(set1, set2, AndWord);
      infinite := set1.infinite && set2.infinite;
      AndWords(Value(), a, b);
    }

    /** `hwloc_bitmap_andnot`, for any aliasing of result and operands. */
    method AndNot(set1: Bitmap, set2: Bitmap)
      requires Valid() && set1.Valid() && set2.Valid() && Apart(this, set1) && Apart(this, set2)
      modifies this, ulongs
      ensures Valid() && (ulongs == old(ulongs) || fresh(ulongs))
      ensures Set(Value()) == Set(old(set1.Value())) - Set(old(set2.Value()))
    {
      ghost var a, b := set1.Value(), set2.Value();
      Combine(set1, set2, AndNotWord);
      infinite := set1.infinite && !set2.infinite;
      AndNotWords(Value(), a, b);
    }

    /** `hwloc_bitmap_xor`, for any aliasing of result and operands. */
    method Xor(set1: Bitmap, set2: Bitmap)
      requires Valid() && set1.Valid() && set2.Valid() && Apart(this, set1) && Apart(this, set2)
      modifies this, ulongs
      ensures Valid() && (ulongs == old(ulongs) || fresh(ulongs))
      ensures Set(Value()) == (Set(old(set1.Value())) - Set(old(set2.Value())))
          + (Set(old(set2.Value())) - Set(old(set1.Value())))
    {
      ghost var a, b := set1.Value(), set2.Value();
      Combine(set1, set2, XorWord);
      infinite := set1.infinite != set2.infinite;
      XorWords(Value(), a, b);
    }

    /** `hwloc_bitmap_not`. */
    method Not(source: Bitmap)
      requires Valid() && source.Valid() && Apart(this, source)
      modifies this`ulongs, this`count, this`infinite, ulongs
      ensures Valid() && (ulongs == old(ulongs) || fresh(ulongs))
      ensures forall i: nat :: i in Set(Value()) <==> i !in Set(old(source.Value()))
    {
      hide NotWord, Read, Set;
      ghost var a := source.Value();
      PendingFirst(source);
      Realloc(source.count);
      var i := 0;
      while i < count
        invariant i <= count && Valid() && (ulongs == old(ulongs) || fresh(ulongs))
        invariant |a.words| <= count && unchanged(this`infinite) && Pending(source, a, i)
        invariant forall k :: 0 <= k < i ==> ulongs[k] == NotWord(Read(a, k))
      {
        PendingRead(source, a, i);
        ulongs[i] := NotWord(source.ReadUlong(i));
        i := i + 1;
      }
      infinite := !source.infinite;
      NotWords(Value(), a);
    }

    /** `hwloc_bitmap__zero` and `hwloc_bitmap__fill`. */
    method Clear(bit: bool)
      requires Valid()
      modifies this`infinite, ulongs
      ensures Valid() && infinite == bit
      ensures forall k :: 0 <= k < count ==> ulongs[k] == Repeat(bit, BITS)
    {
      var i := 0;
      while i < count
        invariant i <= count && Valid()
        invariant forall k :: 0 <= k < i ==> ulongs[k] == Repeat(bit, BITS)
      {
        ulongs[i] := if bit then FULL else ZERO;
        i := i + 1;
      }
      infinite := bit;
    }

    /** `hwloc_bitmap_zero`. */
    method Zero()
      requires Valid()
      modifies this, ulongs
      ensures Valid() && (ulongs == old(ulongs) || fresh(ulongs))
      ensures Set(Value()) == iset{} && count == 1 && !infinite
    {
      Reset(1);
      Clear(false);
    }

    /** `hwloc_bitmap_fill`. */
    method Fill()
      requires Valid()
      modifies this, ulongs
      ensures Valid() && (ulongs == old(ulongs) || fresh(ulongs))
      ensures (forall i: nat :: i in Set(Value())) && count == 1
    {
      Reset(1);
      Clear(true);
    }

    /** `hwloc_bitmap_only`. */
    method Only(cpu: nat)
      requires Valid()
      modifies this, ulongs
      ensures Valid() && (ulongs == old(ulongs) || fresh(ulongs))
      ensures Set(Value()) == iset{cpu}
    {
      var index := cpu / BITS;
      Reset(index + 1);
      Clear(false);
      ulongs[index] := OrWord(ulongs[index], OneBit(cpu % BITS));
      BitIndex(cpu);
    }

    /** `hwloc_bitmap_allbut`. */
    method AllBut(cpu: nat)
      requires Valid()
      modifies this, ulongs
      ensures Valid() && (ulongs == old(ulongs) || fresh(ulongs))
      ensures forall i: nat :: i in Set(Value()) <==> i != cpu
    {
      var index := cpu / BITS;
      Reset(index + 1);
      Clear(true);
      ulongs[index] := AndNotWord(ulongs[index], OneBit(cpu % BITS));
      BitIndex(cpu);
    }

    /** `hwloc_bitmap_set`. */
    method SetBit(cpu: nat)
      requires Valid()
      modifies this`ulongs, this`count, ulongs
      ensures Valid() && (ulongs == old(ulongs) || fresh(ulongs))
      ensures Set(Value()) == Set(old(Value())) + iset{cpu}
      ensures !old(infinite) ==> count == Larger(old(count), cpu / BITS + 1)
    {
      ghost var before := Value();
      var index := cpu / BITS;
      if infinite && cpu >= count * BITS {
        assert Member(before, cpu);
        return;
      }
      Realloc(index + 1);
      ulongs[index] := OrWord(ulongs[index], OneBit(cpu % BITS));
      BitAdded(before, Value(), cpu);
    }

    /** `hwloc_bitmap_clr`. */
    method Clr(cpu: nat)
      requires Valid()
      modifies this`ulongs, this`count, ulongs
      ensures Valid() && (ulongs == old(ulongs) || fresh(ulongs))
      ensures Set(Value()) == Set(old(Value())) - iset{cpu}
    {
      ghost var before := Value();
      var index := cpu / BITS;
      if !infinite && cpu >= count * BITS {
        assert !Member(before, cpu);
        return;
      }
      Realloc(index + 1);
      ulongs[index] := AndNotWord(ulongs[index], OneBit(cpu % BITS));
      BitRemoved(before, Value(), cpu);
    }

    /** The word loop of `hwloc_bitmap_set_range` (`bit`) and `hwloc_bitmap_clr_range`. */
    method WriteRange(begin: nat, end: nat, bit: bool)
      requires Valid() && begin <= end < count * BITS
      modifies ulongs
      ensures forall k :: 0 <= k < count ==> ulongs[k] == Merge(old(ulongs[k]), RangeWord(k, begin, end), bit)
    {
      var beginset, endset := begin / BITS, end / BITS;
      RangeWords(begin, end);
      hide RangeWord;
      var i := beginset + 1;
      while i < endset
        invariant beginset + 1 <= i && (i <= endset || i == beginset + 1)
        invariant forall k :: 0 <= k < count ==>
          ulongs[k] == if beginset < k < i then Merge(old(ulongs[k]), RangeWord(k, begin, end), bit) else old(ulongs[k])
      {
        ulongs[i] := if bit then FULL else ZERO;
        i := i + 1;
      }
      if beginset == endset {
        ulongs[beginset] := Merge(ulongs[beginset], BitsFromTo(begin % BITS, end % BITS), bit);
      } else {
        ulongs[beginset] := Merge(ulongs[beginset], BitsFrom(begin % BITS), bit);
        ulongs[endset] := Merge(ulongs[endset], BitsTo(end % BITS), bit);
      }
      forall k | 0 <= k < count
        ensures ulongs[k] == Merge(old(ulongs[k]), RangeWord(k, begin, end), bit)
      {
      }
    }

    /** `hwloc_bitmap_set_range` (`bit`) and `hwloc_bitmap_clr_range`, which are each other's mirror
        image. */
    method AssignRange(begin: nat, end: int, bit: bool)
      requires Valid() && IsInt(end) && count * BITS < UINT_VALUES
      modifies this, ulongs
      ensures Valid() && (ulongs == old(ulongs) || fresh(ulongs))
      ensures forall i: nat :: Member(Value(), i) <==>
        if InRange(old(count) * BITS, begin, end, i) then bit else Member(old(Value()), i)
      ensures end != -1 ==> infinite == old(infinite)
      ensures end != -1 && begin <= Unsigned(end) && bit && !old(infinite) ==>
        count == Larger(old(count), Unsigned(end) / BITS + 1)
      ensures Unsigned(end) < begin ==> count == old(count)
    {
      hide RangeWord, Merge, Repeat, Read;
      ghost var before := Value();
      PastWords(before);
      var endcpu := Unsigned(end);
      if end == -1 {
        infinite := bit;
      }
      PastWords(Value());
      if infinite == bit {
        if endcpu >= count * BITS {
          endcpu := count * BITS - 1;
        }
        if begin >= count * BITS {
          return;
        }
      }
      if endcpu < begin {
        return;
      }
      Realloc(endcpu / BITS + 1);
      RangeGrown(before, Value(), end == -1, bit);
      WriteRange(begin, endcpu, bit);
      RangeWritten(before, Value(), begin, endcpu, bit);
      PastWords(Value());
    }

    /** A bounded range is set exactly; up to infinity, everything from the first bit, or from the
        last word if that comes first. */
    method SetRange(begin: nat, end: int)
      requires Valid() && IsInt(end) && count * BITS < UINT_VALUES
      modifies this, ulongs
      ensures Valid() && (ulongs == old(ulongs) || fresh(ulongs))
      ensures end != -1 ==> Set(Value()) == Set(old(Value())) + Range(begin, Unsigned(end))
      ensures end == -1 ==>
        Set(Value()) == Set(old(Value())) + FromOn(ReallyFrom(old(Value()), begin))
      ensures end != -1 ==> infinite == old(infinite)
      ensures end != -1 && !old(infinite) ==>
        count == if begin <= Unsigned(end) then Larger(old(count), Unsigned(end) / BITS + 1) else old(count)
    {
      AssignRange(begin, end, true);
    }

    method ClrRange(begin: nat, end: int)
      requires Valid() && IsInt(end) && count * BITS < UINT_VALUES
      modifies this, ulongs
      ensures Valid() && (ulongs == old(ulongs) || fresh(ulongs))
      ensures end != -1 ==> Set(Value()) == Set(old(Value())) - Range(begin, Unsigned(end))
      ensures end == -1 ==>
        Set(Value()) == Set(old(Value())) - FromOn(ReallyFrom(old(Value()), begin))
    {
      AssignRange(begin, end, false);
    }
  }

  /** Setting up to infinity does what it is asked exactly when the range starts inside the stored
      words or the bits past them were set already. */
  lemma SetRangeToInfinityExact(before: Bits, begin: nat)
    ensures
      var from := ReallyFrom(before, begin);
      Set(before) + FromOn(from) == Set(before) + FromOn(begin)
      <==> begin <= |before.words| * BITS || before.infinite
  {
    var bits := |before.words| * BITS;
    assert Member(before, bits) <==> before.infinite;
    assert begin > bits ==> bits in Set(before) + FromOn(bits);
    assert begin > bits && !before.infinite ==> bits !in Set(before) + FromOn(begin);
  }

  /** Clearing up to infinity, in the same way. */
  lemma ClrRangeToInfinityExact(before: Bits, begin: nat)
    ensures
      var from := ReallyFrom(before, begin);
      Set(before) - FromOn(from) == Set(before) - FromOn(begin)
      <==> begin <= |before.words| * BITS || !before.infinite
  {
    var bits := |before.words| * BITS;
    PastWords(before);
    assert begin > bits && before.infinite ==>
        bits in Set(before) - FromOn(begin)
        && bits !in Set(before) - FromOn(bits);
    if begin > bits && !before.infinite {
      assert Set(before) - FromOn(bits) == Set(before) - FromOn(begin);
    }
  }

  /** One empty word, and the range from 100 on: CPU 80 is set. */
  lemma SetRangeSetsMore()
    ensures var before := Bits([ZERO], false);
      80 in Set(before) + FromOn(ReallyFrom(before, 100)) && 80 !in Set(before) + FromOn(100)
  {
  }

  /** One full word, and the range from 100 on: CPU 80 is cleared. */
  lemma ClrRangeClearsMore()
    ensures var before := Bits([FULL], true);
      80 !in Set(before) - FromOn(ReallyFrom(before, 100)) && 80 in Set(before) - FromOn(100)
  {
  }
}
