/** The list form of bitmaps (src/cpuset.c): decimal numbers and ranges separated by commas, the
    last range left open when the set is infinite. */
module BitmapList {
  import opened Bitmap
  import opened BitmapQueries
  import opened DecimalText
  import opened TextBuffer

  const INT_VALUES: nat := 0x8000_0000

  // ---- The runs of a set ----

  /** The first position from `from` on that is (or is not) in the set, or -1. */
  ghost function FirstFrom(b: Bits, from: nat, wanted: bool): (r: int)
    ensures r == -1 || r >= from
    ensures r == -1 ==> forall i: nat :: i >= from ==> Member(b, i) != wanted
    ensures r >= 0 ==> Member(b, r) == wanted && forall i: nat :: from <= i < r ==> Member(b, i) != wanted
    ensures r > from ==> r <= |b.words| * BITS
    decreases |b.words| * BITS - from
  {
    if Member(b, from) == wanted then from
    else if from >= |b.words| * BITS then -1
    else FirstFrom(b, from + 1, wanted)
  }

  lemma NextIsFirst(b: Bits, from: nat, r: int)
    ensures IsNext(b, from, r) <==> r == FirstFrom(b, from, true)
  {
  }

  /** A run of members, up to `end` (not included), or without end. */
  datatype Run = Run(begin: nat, end: int)

  ghost function Runs(b: Bits, from: nat): (runs: seq<Run>)
    decreases |b.words| * BITS - from
  {
    var begin := FirstFrom(b, from, true);
    if begin == -1 then [] else
    var end := FirstFrom(b, begin, false);
    if end == -1 then [Run(begin, -1)] else [Run(begin, end)] + Runs(b, end)
  }

  predicate Has(run: Run, i: nat) {
    run.begin <= i && (run.end == -1 || i < run.end)
  }

  ghost predicate InRuns(runs: seq<Run>, i: nat) {
    exists k :: 0 <= k < |runs| && Has(runs[k], i)
  }

  lemma InMoreRuns(run: Run, rest: seq<Run>, i: nat)
    ensures InRuns([run] + rest, i) <==> Has(run, i) || InRuns(rest, i)
  {
    var runs := [run] + rest;
    assert runs[0] == run && forall k :: 0 <= k < |rest| ==> rest[k] == runs[k + 1];
  }

  /** The runs hold the members of the set and nothing else. */
  lemma {:induction false} RunsAreMembers(b: Bits, from: nat, i: nat)
    requires i >= from
    ensures Member(b, i) <==> InRuns(Runs(b, from), i)
    decreases |b.words| * BITS - from
  {
    hide Member, InRuns;
    var begin := FirstFrom(b, from, true);
    if begin == -1 {
      NoRuns(i);
    } else {
      var end := FirstFrom(b, begin, false);
      var rest := if end == -1 then [] else Runs(b, end);
      InMoreRuns(Run(begin, end), rest, i);
      assert Runs(b, from) == [Run(begin, end)] + rest;
      if end == -1 {
        NoRuns(i);
      } else if i >= end {
        RunsAreMembers(b, end, i);
      } else {
        LaterRuns(b, end, i);
      }
    }
  }

  lemma NoRuns(i: nat)
    ensures !InRuns([], i)
  {
  }

  lemma {:induction false} LaterRuns(b: Bits, from: nat, i: nat)
    requires i < from
    ensures !InRuns(Runs(b, from), i)
    decreases |b.words| * BITS - from
  {
    hide Member, InRuns;
    NoRuns(i);
    var begin := FirstFrom(b, from, true);
    if begin != -1 {
      var end := FirstFrom(b, begin, false);
      var rest := if end == -1 then [] else Runs(b, end);
      InMoreRuns(Run(begin, end), rest, i);
      assert Runs(b, from) == [Run(begin, end)] + rest;
      if end != -1 {
        LaterRuns(b, end, i);
      }
    }
  }

  /** Runs are not empty, in order, and never touch: no shorter list has the same members. */
  lemma {:induction false} RunsApart(b: Bits, from: nat, k: nat)
    requires k < |Runs(b, from)|
    ensures var runs := Runs(b, from);
      && runs[k].begin >= from
      && (if k + 1 < |runs| then runs[k].begin < runs[k].end < runs[k + 1].begin
          else if b.infinite then runs[k].end == -1 else runs[k].begin < runs[k].end)
    decreases |b.words| * BITS - from
  {
    hide Member;
    var begin := FirstFrom(b, from, true);
    var end := FirstFrom(b, begin, false);
    TailIsInfinite(b, begin);
    if end != -1 {
      var rest := Runs(b, end);
      TailIsInfinite(b, end);
      if rest != [] {
        if k > 0 {
          RunsApart(b, end, k - 1);
        } else {
          assert rest[0].begin == FirstFrom(b, end, true);
        }
      }
    }
  }

  lemma TailIsInfinite(b: Bits, from: nat)
    ensures FirstFrom(b, from, false) == -1 ==> b.infinite
    ensures FirstFrom(b, from, true) == -1 ==> !b.infinite
  {
    PastEnd(b, from + |b.words| * BITS);
  }

  // ---- Printing ----

  function Item(run: Run): string {
    if run.end == run.begin + 1 then Decimal(run.begin)
    else if run.end <= 0 then Decimal(run.begin) + "-"
    else Decimal(run.begin) + "-" + Decimal(run.end - 1)
  }

  function Text(runs: seq<Run>, needcomma: bool): string {
    if runs == [] then "" else (if needcomma then "," else "") + Item(runs[0]) + Text(runs[1..], true)
  }

  /** `hwloc_bitmap_list_snprintf`. */
  method ListSnprintf(s: Bitmap, out: Output)
    requires s.Valid() && out.Valid()
    modifies out, out.buffer
    ensures out.Valid() && out.text == old(out.text) + Text(Runs(old(s.Value()), 0), false)
  {
    hide Runs, Text, Set, Member;
    ghost var b := s.Value();
    var reverse := new Bitmap();
    reverse.Not(s);
    SetMembers(b, reverse.Value());
    PrintRuns(s, reverse, out);
  }

  /** The loop over the runs, which looks for their ends in the complement. */
  method PrintRuns(s: Bitmap, reverse: Bitmap, out: Output)
    requires s.Valid() && reverse.Valid() && out.Valid()
    requires forall i: nat :: Member(reverse.Value(), i) <==> !Member(s.Value(), i)
    modifies out, out.buffer
    ensures out.Valid() && out.text == old(out.text) + Text(Runs(old(s.Value()), 0), false)
  {
    hide Runs, Text, Item, FirstFrom, IsNext, Member;
    ghost var b, complement := s.Value(), reverse.Value();
    ghost var all := out.text + Text(Runs(b, 0), false);
    var prev := -1;
    var needcomma := false;
    while true
      invariant s.Valid() && s.Value() == b && reverse.Valid() && reverse.Value() == complement && out.Valid()
      invariant prev >= -1
      invariant out.text + Text(Runs(b, prev + 1), needcomma) == all
      decreases |b.words| * BITS - prev
    {
      var begin := Next(s, prev);
      NextIsFirst(b, prev + 1, begin);
      NextRun(b, prev + 1);
      if begin == -1 {
        NoText(needcomma);
        return;
      }
      var end := Next(reverse, begin);
      AfterMember(b, complement, begin, end);
      assert [Run(begin, end)] + [] == [Run(begin, end)];
      TextStep(out.text, Run(begin, end), if end == -1 then [] else Runs(b, end), needcomma);
      out.Put((if needcomma then "," else "") + Item(Run(begin, end)));
      needcomma := true;
      if end == -1 {
        NoText(true);
        return;
      }
      prev := end - 1;
    }
  }

  lemma SetMembers(b: Bits, complement: Bits)
    requires forall i: nat :: i in Set(complement) <==> i !in Set(b)
    ensures forall i: nat :: Member(complement, i) <==> !Member(b, i)
  {
    forall i: nat
      ensures Member(complement, i) <==> !Member(b, i)
    {
      assert i in Set(complement) <==> i !in Set(b);
    }
  }

  lemma NextRun(b: Bits, from: nat)
    ensures
      var begin := FirstFrom(b, from, true);
      Runs(b, from) == if begin == -1 then [] else
        var end := FirstFrom(b, begin, false);
        if end == -1 then [Run(begin, -1)] else [Run(begin, end)] + Runs(b, end)
  {
  }

  lemma NoText(needcomma: bool)
    ensures Text([], needcomma) == ""
  {
  }

  lemma TextStep(before: string, run: Run, rest: seq<Run>, needcomma: bool)
    ensures before + Text([run] + rest, needcomma)
            == before + ((if needcomma then "," else "") + Item(run)) + Text(rest, true)
  {
    hide Item;
    assert ([run] + rest)[1..] == rest;
  }

  lemma AfterMember(b: Bits, complement: Bits, begin: nat, end: int)
    requires forall i: nat :: Member(complement, i) <==> !Member(b, i)
    requires Member(b, begin) && IsNext(complement, begin + 1, end)
    ensures end == FirstFrom(b, begin, false) && (end == -1 || begin < end)
  {
  }

  // ---- Parsing ----

  datatype Parsed = Is(bits: iset<nat>) | Malformed | TooLarge

  function SkipCommas(text: string): (r: string)
    ensures |r| <= |text|
  {
    if text != "" && text[0] == ',' then SkipCommas(text[1..]) else text
  }

  /** How many words a bitmap has when a bit has been set. */
  function Grown(count: nat, bit: nat): nat {
    Larger(count, bit / BITS + 1)
  }

  /** What the rest of a text makes of a set that is held in `count` words, when `begin` is the
      start of an unfinished range or -1. An open range starts no later than the end of the words. */
  ghost function Meaning(text: string, begin: int, bits: iset<nat>, count: nat): Parsed
    decreases |text|
  {
    if text == "" then Is(bits) else
    var current := SkipCommas(text);
    var (val, next) := Strtoul0(current);
    if |next| == |current| then Malformed
    else if val >= INT_VALUES then TooLarge
    else if begin >= 0 then
      var more := bits + Range(begin, val);
      var grown := if begin <= val then Grown(count, val) else count;
      if next == "" then Is(more) else Meaning(next[1..], -1, more, grown)
    else if next == "" then Is(bits + iset{val})
    else if next == "-" then Is(bits + FromOn(if val < count * BITS then val else count * BITS))
    else if next[0] == '-' then Meaning(next[1..], val, bits, count)
    else if next[0] == ',' then Meaning(next[1..], -1, bits + iset{val}, Grown(count, val))
    else Meaning(next[1..], -1, bits, count)
  }

  /** `hwloc_bitmap_list_sscanf`, for texts whose numbers fit an `int`. */
  method ListSscanf(s: Bitmap, text: string) returns (ok: bool)
    requires s.Valid() && !Meaning(text, -1, iset{}, 1).TooLarge?
    modifies s, s.ulongs
    ensures s.Valid() && (s.ulongs == old(s.ulongs) || fresh(s.ulongs))
    ensures ok <==> Meaning(text, -1, iset{}, 1).Is?
    ensures Set(s.Value()) == if ok then Meaning(text, -1, iset{}, 1).bits else iset{}
  {
    hide Set, Strtoul0, FromOn, Range;
    var current := text;
    var begin := -1;
    s.Zero();
    while current != ""
      invariant s.Valid() && (s.ulongs == old(s.ulongs) || fresh(s.ulongs))
      invariant !s.infinite && s.count <= INT_VALUES / BITS && -1 <= begin < INT_VALUES
      invariant Meaning(text, -1, iset{}, 1) == Meaning(current, begin, Set(s.Value()), s.count)
      decreases |current|
    {
      current := SkipSeparators(current);
      var (val, next) := Strtoul0(current);
      if |next| == |current| {
        s.Zero();
        return false;
      }
      if begin != -1 {
        s.SetRange(begin, val);
        begin := -1;
      } else if next != "" && next[0] == '-' {
        if |next| == 1 {
          s.SetRange(val, -1);
          return true;
        }
        begin := val;
      } else if next == "" || next[0] == ',' {
        s.SetBit(val);
      }
      if next == "" {
        return true;
      }
      current := next[1..];
    }
    return true;
  }

  /** The inner loop, which ignores empty ranges. */
  method SkipSeparators(text: string) returns (current: string)
    ensures current == SkipCommas(text)
  {
    current := text;
    while current != "" && current[0] == ','
      invariant SkipCommas(current) == SkipCommas(text)
      decreases |current|
    {
      current := current[1..];
    }
  }

  // ---- The parser undoes the printer ----

  /** What has been read when the members below `from` have been: they are in `bits`, and the words
      reach just as far as the last of them. */
  ghost predicate Held(b: Bits, from: nat, bits: iset<nat>, count: nat) {
    && count >= 1
    && (forall i: nat :: i in bits <==> i < from && Member(b, i))
    && (forall i: nat :: i < from && Member(b, i) ==> i < count * BITS)
    && (count == 1 || exists i: nat :: i < from && Member(b, i) && i / BITS + 1 == count)
  }

  /** The members of an infinite set from `t` on are all numbers, and `t` is the least such. */
  ghost predicate IsTail(b: Bits, t: nat) {
    (forall i: nat :: i >= t ==> Member(b, i)) && (t == 0 || !Member(b, t - 1))
  }

  /** The tail starts no later than the end of the first word, or of a word that has another
      member. */
  ghost predicate TailInReach(b: Bits, t: nat) {
    t <= BITS || exists i: nat :: i < t && Member(b, i) && t <= (i / BITS + 1) * BITS
  }

  function After(text: string): string {
    if text == "" then "" else text[1..]
  }

  lemma SkipNothing(text: string)
    requires text != "" && text[0] != ','
    ensures SkipCommas(text) == text
  {
  }

  lemma NumberStarts(n: nat, rest: string)
    requires EndsNumber(rest)
    ensures SkipCommas(Decimal(n) + rest) == Decimal(n) + rest && Strtoul0(Decimal(n) + rest) == (n, rest)
  {
    hide Decimal, SkipCommas, Strtoul0;
    FirstOfDecimal(n);
    assert (Decimal(n) + rest)[0] == Decimal(n)[0];
    SkipNothing(Decimal(n) + rest);
    DecimalRead(n, rest);
  }

  lemma ReadSingle(n: nat, rest: string, bits: iset<nat>, count: nat)
    requires n < INT_VALUES && (rest == "" || rest[0] == ',')
    ensures Meaning(Decimal(n) + rest, -1, bits, count) == Meaning(After(rest), -1, bits + Range(n, n), Grown(count, n))
  {
    hide Decimal, SkipCommas, Strtoul0, Grown;
    NumberStarts(n, rest);
    assert iset{n} == Range(n, n);
  }

  lemma ReadEndOfRange(begin: nat, n: nat, rest: string, bits: iset<nat>, count: nat)
    requires begin <= n < INT_VALUES && (rest == "" || rest[0] == ',')
    ensures Meaning(Decimal(n) + rest, begin, bits, count) ==
        Meaning(After(rest), -1, bits + Range(begin, n), Grown(count, n))
  {
    hide Decimal, SkipCommas, Strtoul0, Grown, Range;
    NumberStarts(n, rest);
  }

  lemma ReadStartOfRange(begin: nat, rest: string, bits: iset<nat>, count: nat)
    requires begin < INT_VALUES
    ensures Meaning(Decimal(begin) + "-" + rest, -1, bits, count)
            == if rest == "" then Is(bits + FromOn(if begin < count * BITS then begin else count * BITS))
               else Meaning(rest, begin, bits, count)
  {
    hide Decimal, SkipCommas, Strtoul0, Grown, FromOn;
    var next := "-" + rest;
    assert Decimal(begin) + "-" + rest == Decimal(begin) + next;
    NumberStarts(begin, next);
    assert next[1..] == rest;
  }

  lemma ReadRun(run: Run, rest: string, bits: iset<nat>, count: nat)
    requires run.begin < run.end <= INT_VALUES && (rest == "" || rest[0] == ',')
    ensures Meaning(Item(run) + rest, -1, bits, count)
            == Meaning(After(rest), -1, bits + Range(run.begin, run.end - 1), Grown(count, run.end - 1))
  {
    hide Decimal, Meaning, Grown, Range;
    var last := run.end - 1;
    if run.end == run.begin + 1 {
      ReadSingle(run.begin, rest, bits, count);
    } else {
      ReadStartOfRange(run.begin, Decimal(last) + rest, bits, count);
      assert Item(run) + rest == Decimal(run.begin) + "-" + (Decimal(last) + rest);
      ReadEndOfRange(run.begin, last, rest, bits, count);
    }
  }

  lemma AfterText(runs: seq<Run>)
    ensures After(Text(runs, true)) == Text(runs, false)
    ensures Text(runs, true) == "" || Text(runs, true)[0] == ','
  {
    hide Item;
  }

  lemma HeldRun(b: Bits, from: nat, begin: nat, end: nat, bits: iset<nat>, count: nat)
    requires Held(b, from, bits, count) && from <= begin < end
    requires forall i: nat :: from <= i < begin ==> !Member(b, i)
    requires forall i: nat :: begin <= i < end ==> Member(b, i)
    ensures Held(b, end, bits + Range(begin, end - 1), Grown(count, end - 1))
  {
    hide Member;
    var last := end - 1;
    var grown := Grown(count, last);
    assert last < grown * BITS && count <= grown;
    if grown != count {
      assert Member(b, last) && last / BITS + 1 == grown;
    }
  }

  lemma {:induction false} ReadRuns(b: Bits, from: nat, bits: iset<nat>, count: nat)
    requires Held(b, from, bits, count) && from <= |b.words| * BITS < INT_VALUES
    requires from == 0 || !Member(b, from)
    ensures
      var parsed := Meaning(Text(Runs(b, from), false), -1, bits, count);
      && parsed.Is?
      && (!b.infinite ==> parsed.bits == Set(b))
      && (b.infinite ==> forall t: nat :: IsTail(b, t) ==> (parsed.bits == Set(b) <==> TailInReach(b, t)))
    decreases |b.words| * BITS - from
  {
    hide Meaning, Item, Member, Held, IsTail, TailInReach, Range, FromOn, Text, Set;
    var begin := FirstFrom(b, from, true);
    TailIsInfinite(b, from);
    if begin == -1 {
      NoText(false);
      HeldAll(b, from, bits, count);
    } else {
      var end := FirstFrom(b, begin, false);
      TailIsInfinite(b, begin);
      var rest := if end == -1 then [] else Runs(b, end);
      assert Runs(b, from) == [Run(begin, end)] + rest;
      FirstText(Run(begin, end), rest);
      AfterText(rest);
      if end == -1 {
        NoText(true);
        ItemOpen(begin);
        assert Item(Run(begin, -1)) + "" == Decimal(begin) + "-" + "";
        ReadStartOfRange(begin, "", bits, count);
        HeldTail(b, from, begin, bits, count);
      } else {
        RunInWords(b, begin);
        ReadRun(Run(begin, end), Text(rest, true), bits, count);
        HeldRun(b, from, begin, end, bits, count);
        ReadRuns(b, end, bits + Range(begin, end - 1), Grown(count, end - 1));
      }
    }
  }

  lemma FirstText(run: Run, rest: seq<Run>)
    ensures Text([run] + rest, false) == Item(run) + Text(rest, true)
  {
    hide Item;
    assert ([run] + rest)[1..] == rest;
    assert "" + Item(run) == Item(run);
  }

  lemma ItemOpen(begin: nat)
    ensures Item(Run(begin, -1)) == Decimal(begin) + "-"
  {
  }

  lemma RunInWords(b: Bits, begin: nat)
    requires FirstFrom(b, begin, true) == begin
    ensures FirstFrom(b, begin, false) == -1 || FirstFrom(b, begin, false) <= |b.words| * BITS
  {
  }

  lemma HeldAll(b: Bits, from: nat, bits: iset<nat>, count: nat)
    requires Held(b, from, bits, count) && forall i: nat :: i >= from ==> !Member(b, i)
    ensures Meaning("", -1, bits, count) == Is(Set(b))
  {
    hide Member;
    assert bits == Set(b);
  }

  lemma HeldTail(b: Bits, from: nat, t: nat, bits: iset<nat>, count: nat)
    requires Held(b, from, bits, count) && t >= from && (t > from || from == 0)
    requires forall i: nat :: from <= i < t ==> !Member(b, i)
    requires forall i: nat :: i >= t ==> Member(b, i)
    ensures forall u: nat :: IsTail(b, u) ==>
      (bits + FromOn(if t < count * BITS then t else count * BITS) == Set(b) <==> TailInReach(b, u))
  {
    hide Member;
    var more := bits + FromOn(if t < count * BITS then t else count * BITS);
    TailIsUnique(b, from, t);
    if t <= count * BITS {
      assert forall i: nat :: i in more <==> Member(b, i);
      assert TailInReach(b, t);
    } else {
      assert count * BITS in more && !Member(b, count * BITS);
      assert !TailInReach(b, t);
    }
  }

  lemma TailIsUnique(b: Bits, from: nat, t: nat)
    requires from <= t && forall i: nat :: from <= i < t ==> !Member(b, i)
    requires forall i: nat :: i >= t ==> Member(b, i)
    requires t > from || from == 0
    ensures forall u: nat :: IsTail(b, u) ==> u == t
  {
    hide Member;
    forall u: nat | IsTail(b, u)
      ensures u == t
    {
      var beforeU := if u == 0 then 0 else u - 1;
      var beforeT := if t == 0 then 0 else t - 1;
      assert beforeU >= t ==> Member(b, beforeU);
      assert beforeT >= u ==> Member(b, beforeT);
    }
  }

  /** The list form of a finite set gives the set back; that of an infinite set does exactly when its
      tail starts within reach of the words that its other members fill. */
  lemma ListRoundTrip(b: Bits)
    requires |b.words| * BITS < INT_VALUES
    ensures
      var parsed := Meaning(Text(Runs(b, 0), false), -1, iset{}, 1);
      && parsed.Is?
      && (!b.infinite ==> parsed.bits == Set(b))
      && (b.infinite ==> forall t: nat :: IsTail(b, t) ==> (parsed.bits == Set(b) <==> TailInReach(b, t)))
  {
    ReadRuns(b, 0, iset{}, 1);
  }

  /** Bit 0 and all bits from 128 on: the list form reads back with all bits from 64 on. */
  lemma ListLosesGap()
    ensures
      var b := Bits([OneBit(0), ZERO], true);
      var parsed := Meaning(Text(Runs(b, 0), false), -1, iset{}, 1);
      parsed.Is? && parsed.bits != Set(b)
  {
    hide Meaning, Text, Runs, Set;
    var b := Bits([OneBit(0), ZERO], true);
    ListRoundTrip(b);
    assert IsTail(b, 128) && !TailInReach(b, 128);
  }
}
