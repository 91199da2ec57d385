/** The comma-separated hexadecimal form of bitmaps (src/cpuset.c): 32-bit groups, highest first,
    zero groups left empty, and `0xf...f` for an infinite set. */
module BitmapText {
  import opened Bitmap
  import opened Collections
  import opened HexText
  import opened TextBuffer

  const HALF: nat := 32

  // ---- The text of a bitmap ----

  function Group(b: Bits, g: nat): (bits: seq<bool>)
    requires g < 2 * |b.words|
    ensures |bits| == HALF
  {
    b.words[g / 2][HALF * (g % 2)..HALF * (g % 2) + HALF]
  }

  function AnyBit(bits: seq<bool>): bool {
    exists k :: 0 <= k < |bits| && bits[k]
  }

  function Item(b: Bits, g: nat): string
    requires g < 2 * |b.words|
  {
    if AnyBit(Group(b, g)) then "0x" + HexDigits(Group(b, g)) else if g == 0 then "0x0" else ""
  }

  /** The lowest `g` groups. */
  function Items(b: Bits, g: nat): string
    requires 0 < g <= 2 * |b.words|
  {
    Item(b, g - 1) + if g == 1 then "" else "," + Items(b, g - 1)
  }

  /** How many groups are left when the leading zero groups are dropped. */
  function Top(b: Bits, g: nat): (t: nat)
    requires 0 < g <= 2 * |b.words|
    ensures 0 < t <= g
  {
    if g == 1 || AnyBit(Group(b, g - 1)) then g else Top(b, g - 1)
  }

  function Text(b: Bits): string
    requires |b.words| >= 1
  {
    if !b.infinite then Items(b, Top(b, 2 * |b.words|))
    else if b.words == [FULL] then INFINITE
    else INFINITE + "," + Items(b, 2 * |b.words|)
  }

  // ---- Printing ----

  /** What is still to be printed when `g` groups are left. */
  ghost function Rest(b: Bits, g: nat, needcomma: bool): string
    requires g <= 2 * |b.words|
  {
    if g == 0 then "" else if needcomma then "," + Items(b, g) else Items(b, Top(b, g))
  }

  /** `accum << HWLOC_BITMAP_SUBSTRING_SIZE`. */
  function NextHalf(w: Word): Word {
    ShiftLeft(w, HALF)
  }

  lemma NextGroup(b: Bits, x: nat)
    requires x < |b.words|
    ensures b.words[x][HALF..] == Group(b, 2 * x + 1)
    ensures NextHalf(b.words[x])[HALF..] == Group(b, 2 * x)
  {
    assert (2 * x + 1) / 2 == x && (2 * x) / 2 == x;
  }

  function Piece(high: seq<bool>, last: bool, needcomma: bool): string
    requires |high| == HALF
  {
    if AnyBit(high) then (if needcomma then ",0x" else "0x") + HexDigits(high)
    else if last then (if needcomma then ",0x0" else "0x0")
    else if needcomma then "," else ""
  }

  lemma PieceIsNext(b: Bits, g: nat, needcomma: bool)
    requires 0 < g <= 2 * |b.words|
    ensures
      var high := Group(b, g - 1);
      Rest(b, g, needcomma) == Piece(high, g == 1, needcomma) + Rest(b, g - 1, needcomma || AnyBit(high))
  {
    hide HexDigits, Group, AnyBit;
    var high := Group(b, g - 1);
    if needcomma && AnyBit(high) && g > 1 {
      assert ("," + ("0x" + HexDigits(high))) == ",0x" + HexDigits(high);
    }
  }

  /** `hwloc_bitmap_snprintf`. */
  method Snprintf(s: Bitmap, out: Output)
    requires s.Valid() && out.Valid()
    modifies out, out.buffer
    ensures out.Valid() && out.text == old(out.text) + Text(old(s.Value()))
  {
    hide Text, Rest, Repeat;
    ghost var b := s.Value();
    TextStarts(b);
    if s.infinite {
      out.Put(INFINITE);
      if s.count == 1 && s.ulongs[0] == FULL {
        return;
      }
    }
    PrintGroups(s, out, s.infinite);
    assert (old(out.text) + INFINITE) + Rest(b, 2 * s.count, true) ==
        old(out.text) + (INFINITE + Rest(b, 2 * s.count, true));
  }

  /** The loop of the printer: an accumulator is refilled with a word and gives its upper half. */
  method PrintGroups(s: Bitmap, out: Output, comma: bool)
    requires s.Valid() && out.Valid()
    modifies out, out.buffer
    ensures out.Valid() && out.text == old(out.text) + Rest(old(s.Value()), 2 * s.count, comma)
  {
    hide Rest, Piece, AnyBit, NextHalf, Group, Repeat;
    ghost var b := s.Value();
    ghost var before := out.text;
    var needcomma := comma;
    var i := s.count - 1;
    var accum := ZERO;
    var accumed := 0;
    ghost var g := 2 * |b.words|;
    while i >= 0 || accumed > 0
      invariant s.Valid() && s.Value() == b && out.Valid()
      invariant -1 <= i < s.count && (accumed == 0 || accumed == HALF)
      invariant g == 2 * (i + 1) + accumed / HALF
      invariant accumed == HALF ==> accum[HALF..] == Group(b, g - 1)
      invariant before + Rest(b, 2 * |b.words|, comma) == out.text + Rest(b, g, needcomma)
      decreases g
    {
      if accumed == 0 {
        accum := s.ulongs[i];
        assert accum == b.words[i];
        NextGroup(b, i);
        i := i - 1;
        accumed := BITS;
      }
      var high := accum[HALF..];
      PieceIsNext(b, g, needcomma);
      Regroup(out.text, Piece(high, g == 1, needcomma), Rest(b, g - 1, needcomma || AnyBit(high)));
      out.Put(Piece(high, i == -1 && accumed == HALF, needcomma));
      needcomma := needcomma || AnyBit(high);
      accum := NextHalf(accum);
      accumed := accumed - HALF;
      g := g - 1;
    }
    NothingLeft(b, needcomma);
  }

  lemma TextStarts(b: Bits)
    requires |b.words| >= 1
    ensures !b.infinite ==> Text(b) == Rest(b, 2 * |b.words|, false)
    ensures b.infinite ==> Text(b) == INFINITE + if b.words == [FULL] then "" else Rest(b, 2 * |b.words|, true)
  {
  }

  lemma NothingLeft(b: Bits, needcomma: bool)
    ensures Rest(b, 0, needcomma) == ""
  {
  }

  /** `hwloc_bitmap_asprintf`: a first pass for the length, a second one into a buffer of that
      size, which then holds the whole text. */
  method Asprintf(s: Bitmap) returns (out: Output)
    requires s.Valid()
    ensures fresh(out) && out.Valid() && out.text == Text(s.Value())
    ensures out.pos == |out.text| && out.buffer[..out.pos] == out.text && out.buffer[out.pos] == NUL
  {
    var measure := new Output(0);
    Snprintf(s, measure);
    out := new Output(measure.written + 1);
    Snprintf(s, out);
  }

  // ---- Parsing ----

  datatype Parsed = Done(words: seq<Word>) | Failed | Unfinished

  function Commas(text: string): nat {
    if text == "" then 0 else Commas(text[1..]) + if text[0] == ',' then 1 else 0
  }

  lemma {:induction false} ReadKeepsCommas(text: string, acc: seq<bool>)
    ensures Commas(ReadDigits(text, acc).1) == Commas(text)
    decreases text
  {
    if text != "" && DigitValue(text[0]) >= 0 {
      ReadKeepsCommas(text[1..], Nibble(DigitValue(text[0])) + acc);
    }
  }

  lemma NumberKeepsCommas(text: string)
    ensures Commas(Strtoul16(text).1) == Commas(text)
  {
    ReadKeepsCommas(text, []);
    if |text| >= 3 {
      ReadKeepsCommas(text[2..], []);
      assert text[1..][1..] == text[2..];
    }
  }

  /** Where the value of a group goes. */
  function Placed(accum: Word, value: seq<bool>, group: nat): Word {
    OrWord(accum, ShiftLeft(ToWord(value), HALF * group % BITS))
  }

  /** The words that the text of `count` groups stands for, when `accum` holds what has been read of
      the highest one. */
  function ParseGroups(text: string, count: nat, accum: Word): Parsed
    requires count == 1 + Commas(text)
    decreases |text|
  {
    if text == "" then Unfinished else
    NumberKeepsCommas(text);
    var (value, rest) := Strtoul16(text);
    var group := count - 1;
    var word := Placed(accum, value, group);
    if rest == "" then (if group > 0 then Failed else Done([word]))
    else if rest[0] != ',' then Failed
    else
      var below := ParseGroups(rest[1..], group, if group % 2 == 0 then ZERO else word);
      if group % 2 == 0 then Above(below, [word]) else below
  }

  function Above(p: Parsed, high: seq<Word>): Parsed {
    if p.Done? then Done(p.words + high) else p
  }

  predicate StartsInfinite(text: string) {
    |text| >= |INFINITE| && text[..|INFINITE|] == INFINITE
  }

  /** What `hwloc_bitmap_sscanf` makes of a text: the words and whether they go on. */
  function Parse(text: string): (Parsed, bool)
  {
    if StartsInfinite(text) then
      var rest := text[|INFINITE|..];
      if rest == "" || rest[0] != ',' then (Done([FULL]), true)
      else (ParseGroups(rest[1..], 1 + Commas(rest[1..]), ZERO), true)
    else (ParseGroups(text, 1 + Commas(text), ZERO), false)
  }

  /** `hwloc_bitmap_sscanf`. A text that ends in a comma leaves words as they were. */
  method Sscanf(s: Bitmap, text: string) returns (ok: bool)
    requires s.Valid() && text != "" && text[0] != ','
    modifies s, s.ulongs
    ensures s.Valid() && (s.ulongs == old(s.ulongs) || fresh(s.ulongs))
    ensures Parse(text).0.Done? ==> ok && Set(s.Value()) == Set(Bits(Parse(text).0.words, Parse(text).1))
    ensures Parse(text).0.Failed? ==> !ok && Set(s.Value()) == iset{}
  {
    hide ParseGroups, Set, Commas;
    var current := text;
    var count := CommaCount(text);
    count := count + 1;
    var infinite := false;
    if StartsInfinite(text) {
      current := current[|INFINITE|..];
      if current == "" || current[0] != ',' {
        s.Fill();
        AllSet(s.Value());
        return true;
      }
      SkipInfinite(text);
      current := current[1..];
      infinite := true;
      count := count - 1;
    }
    s.Reset((count + 1) / 2);
    s.infinite := false;
    ok := ScanGroups(s, current, count);
    if !ok {
      s.Zero();
      return;
    }
    s.infinite := infinite;
  }

  /** The counting loop. */
  method CommaCount(text: string) returns (n: nat)
    ensures n == Commas(text)
  {
    n := 0;
    var rest := text;
    while rest != ""
      invariant n + Commas(rest) == Commas(text)
      decreases |rest|
    {
      if rest[0] == ',' {
        n := n + 1;
      }
      rest := rest[1..];
    }
  }

  lemma SkipInfinite(text: string)
    requires StartsInfinite(text) && |text| > |INFINITE| && text[|INFINITE|] == ','
    ensures Commas(text) == 1 + Commas(text[|INFINITE| + 1..]) && text[|INFINITE|..][1..] == text[|INFINITE| + 1..]
  {
    assert forall k :: 0 <= k < |INFINITE| ==> text[k] == INFINITE[k] != ',';
    DropCommas(text, |INFINITE|);
  }

  lemma {:induction false} DropCommas(text: string, n: nat)
    requires n <= |text| && forall k :: 0 <= k < n ==> text[k] != ','
    ensures Commas(text) == Commas(text[n..])
    decreases n
  {
    if n == 0 {
      assert text[0..] == text;
    } else {
      DropCommas(text[1..], n - 1);
      assert text[1..][n - 1..] == text[n..];
    }
  }

  /** The loop of the parser, which fills the words from the highest down. */
  method ScanGroups(s: Bitmap, text: string, groups: nat) returns (ok: bool)
    requires s.Valid() && groups == 1 + Commas(text) && s.count == (groups + 1) / 2
    modifies s.ulongs
    ensures ParseGroups(text, groups, ZERO).Done? ==> ok && s.ulongs[..s.count] == ParseGroups(text, groups, ZERO).words
    ensures ParseGroups(text, groups, ZERO).Failed? ==> !ok
  {
    hide Strtoul16, Placed, Commas, Repeat, ParseGroups, Above;
    var current, count, accum := text, groups, ZERO;
    ParseStart(text);
    assert s.ulongs[s.count..s.count] == [];
    while current != ""
      invariant count == 1 + Commas(current) && (count + 1) / 2 <= s.count
      invariant count % 2 == 0 ==> accum == ZERO
      invariant ParseGroups(text, groups, ZERO) ==
          Above(ParseGroups(current, count, accum), s.ulongs[(count + 1) / 2..s.count])
      decreases |current|
    {
      NumberKeepsCommas(current);
      var (value, next) := Strtoul16(current);
      assert count > 0;
      count := count - 1;
      ghost var before := accum;
      accum := Placed(accum, value, count);
      ghost var word := accum;
      ghost var high := s.ulongs[(count + 2) / 2..s.count];
      if count % 2 == 0 {
        s.ulongs[count / 2] := accum;
        accum := ZERO;
        assert s.ulongs[count / 2..s.count] == [word] + high;
      }
      if next == "" || next[0] != ',' {
        ParseEnd(current, count + 1, before, next, high);
        if next != "" || count > 0 {
          return false;
        }
        return true;
      }
      OneComma(next);
      ParseStep(current, count + 1, before, next, high);
      current := next[1..];
    }
    ParseNothing(count, accum, s.ulongs[(count + 1) / 2..s.count]);
    return true;
  }

  lemma ParseStart(text: string)
    ensures ParseGroups(text, 1 + Commas(text), ZERO) == Above(ParseGroups(text, 1 + Commas(text), ZERO), [])
  {
    hide ParseGroups;
  }

  lemma ParseNothing(count: nat, accum: Word, high: seq<Word>)
    requires count == 1 + Commas("")
    ensures Above(ParseGroups("", count, accum), high).Unfinished?
  {
  }

  /** Reading the last group. */
  lemma ParseEnd(current: string, count: nat, accum: Word, next: string, high: seq<Word>)
    requires current != "" && count == 1 + Commas(current) && Strtoul16(current).1 == next
    requires next == "" || next[0] != ','
    ensures Above(ParseGroups(current, count, accum), high)
            == if next != "" || count > 1 then Failed else Done([Placed(accum, Strtoul16(current).0, 0)] + high)
  {
    hide Strtoul16, Placed, Commas;
  }

  /** Reading one group that a comma follows. */
  lemma ParseStep(current: string, count: nat, accum: Word, next: string, high: seq<Word>)
    requires current != "" && count == 1 + Commas(current) && Strtoul16(current).1 == next
    requires next != "" && next[0] == ',' && count - 1 == 1 + Commas(next[1..])
    ensures
      var word := Placed(accum, Strtoul16(current).0, count - 1);
      Above(ParseGroups(current, count, accum), high)
      == if count % 2 == 1 then Above(ParseGroups(next[1..], count - 1, ZERO), [word] + high)
         else Above(ParseGroups(next[1..], count - 1, word), high)
  {
    hide Strtoul16, Placed, Commas;
    AboveTwice(ParseGroups(next[1..], count - 1, ZERO), [Placed(accum, Strtoul16(current).0, count - 1)], high);
  }

  lemma OneComma(text: string)
    requires text != "" && text[0] == ','
    ensures Commas(text) == 1 + Commas(text[1..])
  {
  }

  lemma AboveTwice(p: Parsed, low: seq<Word>, high: seq<Word>)
    ensures Above(Above(p, low), high) == Above(p, low + high)
  {
  }

  // ---- The parser undoes the printer ----

  /** The words made by the lowest `g` groups, the highest one possibly by half. */
  ghost function LowWords(b: Bits, g: nat, accum: Word): seq<Word>
    requires g <= 2 * |b.words|
  {
    b.words[..g / 2] + if g % 2 == 0 then [] else [OrWord(accum, LowHalf(b.words[g / 2]))]
  }

  ghost function LowHalf(w: Word): Word {
    seq(BITS, k requires 0 <= k < BITS => k < HALF && w[k])
  }

  ghost function HighHalf(w: Word): Word {
    seq(BITS, k requires 0 <= k < BITS => k >= HALF && w[k])
  }

  lemma GroupPlaced(b: Bits, g: nat, accum: Word)
    requires g < 2 * |b.words|
    ensures g % 2 == 0 ==> Placed(accum, Group(b, g), g) == OrWord(accum, LowHalf(b.words[g / 2]))
    ensures g % 2 == 1 ==> Placed(ZERO, Group(b, g), g) == HighHalf(b.words[g / 2])
  {
    var w := ToWord(Group(b, g));
    if g % 2 == 0 {
      assert HALF * g % BITS == 0;
      assert ShiftLeft(w, 0) == LowHalf(b.words[g / 2]);
    } else {
      assert HALF * g % BITS == HALF by { assert HALF * g == BITS * (g / 2) + HALF; }
      assert ShiftLeft(w, HALF) == HighHalf(b.words[g / 2]);
      assert OrWord(ZERO, HighHalf(b.words[g / 2])) == HighHalf(b.words[g / 2]);
    }
  }

  lemma HalvesTogether(w: Word)
    ensures OrWord(HighHalf(w), LowHalf(w)) == w
  {
  }

  lemma LowWordsStart(b: Bits, accum: Word)
    requires |b.words| >= 1
    ensures LowWords(b, 1, accum) == [OrWord(accum, LowHalf(b.words[0]))]
  {
  }

  /** One more group: it completes a word that the group below began, or begins one. */
  lemma LowWordsStep(b: Bits, group: nat, accum: Word)
    requires 0 < group < 2 * |b.words|
    ensures group % 2 == 0 ==>
      var word := OrWord(accum, LowHalf(b.words[group / 2]));
      LowWords(b, group + 1, accum) == LowWords(b, group, word) + [word]
    ensures group % 2 == 1 ==> LowWords(b, group + 1, accum) == LowWords(b, group, HighHalf(b.words[group / 2]))
  {
    hide OrWord, LowHalf, HighHalf;
    var x := group / 2;
    if group % 2 == 1 {
      HalvesTogether(b.words[x]);
      assert b.words[..x] + [b.words[x]] == b.words[..x + 1];
    }
  }

  lemma PlacedNothing(accum: Word, value: seq<bool>, g: nat)
    requires !AnyBit(value)
    ensures ToWord(value) == ZERO && Placed(accum, value, g) == accum
  {
    assert ShiftLeft(ZERO, HALF * g % BITS) == ZERO;
  }

  /** Reading one item gives its group back. */
  lemma ItemRead(b: Bits, g: nat, accum: Word, rest: string)
    requires g < 2 * |b.words| && (rest == "" || rest[0] == ',')
    ensures
      var r := Strtoul16(Item(b, g) + rest);
      r.1 == rest && Placed(accum, r.0, g) == Placed(accum, Group(b, g), g)
  {
    var bits := Group(b, g);
    if AnyBit(bits) {
      assert Item(b, g) + rest == "0x" + HexDigits(bits) + rest;
      PrefixedRoundTrip(bits, rest);
    } else {
      PlacedNothing(accum, bits, g);
      if g == 0 {
        ZeroRead(rest);
        PlacedNothing(accum, Strtoul16("0x0" + rest).0, g);
      } else {
        assert Item(b, g) + rest == rest;
        StopsReading(rest, []);
        PlacedNothing(accum, [], g);
      }
    }
  }

  lemma ZeroRead(rest: string)
    requires rest == "" || rest[0] == ','
    ensures Strtoul16("0x0" + rest) == (Nibble(0), rest) && !AnyBit(Nibble(0))
  {
    var text := "0x0" + rest;
    assert text[2..][1..] == rest;
    StopsReading(rest, Nibble(0) + []);
    assert Nibble(0) + [] == Nibble(0);
  }

  lemma {:induction false} CommasAppend(a: string, c: string)
    ensures Commas(a + c) == Commas(a) + Commas(c)
  {
    if a == "" {
      assert a + c == c;
    } else {
      CommasAppend(a[1..], c);
      assert (a + c)[1..] == a[1..] + c;
    }
  }

  lemma ItemHasNoComma(b: Bits, g: nat)
    requires g < 2 * |b.words|
    ensures Commas(Item(b, g)) == 0
  {
    DigitsHaveNoComma(Group(b, g));
    var item := Item(b, g);
    assert forall k :: 0 <= k < |item| ==> item[k] != ',';
    DropCommas(item, |item|);
  }

  lemma {:induction false} ItemsCommas(b: Bits, g: nat)
    requires 0 < g <= 2 * |b.words|
    ensures Commas(Items(b, g)) == g - 1
  {
    ItemHasNoComma(b, g - 1);
    if g > 1 {
      ItemsCommas(b, g - 1);
      CommasAppend(Item(b, g - 1), "," + Items(b, g - 1));
      OneComma("," + Items(b, g - 1));
      assert ("," + Items(b, g - 1))[1..] == Items(b, g - 1);
    } else {
      assert Items(b, 1) == Item(b, 0);
    }
  }

  lemma ItemsNotEmpty(b: Bits, g: nat)
    requires 0 < g <= 2 * |b.words|
    ensures Items(b, g) != "" && (AnyBit(Group(b, g - 1)) || g == 1 ==> Items(b, g)[0] == '0')
  {
  }

  lemma {:induction false} ItemsRoundTrip(b: Bits, g: nat, accum: Word)
    requires 0 < g <= 2 * |b.words|
    requires g == 1 + Commas(Items(b, g))
    ensures ParseGroups(Items(b, g), g, if g % 2 == 0 then ZERO else accum)
            == Done(LowWords(b, g, accum))
    decreases g
  {
    hide Strtoul16, Placed, Group, Commas, LowWords, OrWord, LowHalf, HighHalf;
    var group := g - 1;
    var acc := if g % 2 == 0 then ZERO else accum;
    var rest := if g == 1 then "" else "," + Items(b, group);
    ItemRead(b, group, acc, rest);
    ItemsNotEmpty(b, g);
    GroupPlaced(b, group, acc);
    assert Items(b, g) == Item(b, group) + rest;
    if g == 1 {
      LowWordsStart(b, accum);
    } else {
      ItemsCommas(b, group);
      assert rest[1..] == Items(b, group);
      var word := Placed(acc, Group(b, group), group);
      ItemsRoundTrip(b, group, word);
      LowWordsStep(b, group, accum);
    }
  }

  /** The groups that are dropped are zero, so the words that are read stand for the same set. */
  lemma {:induction false} TopDropsNothing(b: Bits, g: nat)
    requires 0 < g <= 2 * |b.words|
    ensures forall h :: Top(b, g) <= h < g ==> !AnyBit(Group(b, h))
  {
    if !(g == 1 || AnyBit(Group(b, g - 1))) {
      TopDropsNothing(b, g - 1);
    }
  }

  lemma SameSet(b: Bits, t: nat)
    requires 0 < t <= 2 * |b.words| && !b.infinite
    requires forall h :: t <= h < 2 * |b.words| ==> !AnyBit(Group(b, h))
    ensures Set(Bits(LowWords(b, t, ZERO), false)) == Set(b)
  {
    var words := LowWords(b, t, ZERO);
    forall i: nat
      ensures Member(Bits(words, false), i) <==> Member(b, i)
    {
      var h := i / HALF;
      assert h / 2 == i / BITS && i % BITS == HALF * (h % 2) + i % HALF;
      if t <= h < 2 * |b.words| {
        assert !Group(b, h)[i % HALF];
      }
    }
  }

  lemma FiniteParse(b: Bits, t: nat)
    requires 0 < t <= 2 * |b.words| && (AnyBit(Group(b, t - 1)) || t == 1)
    ensures Items(b, t) != "" && Items(b, t)[0] != ','
    ensures Parse(Items(b, t)) == (Done(LowWords(b, t, ZERO)), false)
  {
    hide Items, Group, AnyBit, ParseGroups, LowWords, Commas, StartsInfinite;
    ItemsNotEmpty(b, t);
    NotInfinite(b, t);
    ItemsCommas(b, t);
    ItemsRoundTrip(b, t, ZERO);
  }

  lemma InfiniteParse(b: Bits)
    requires |b.words| >= 1
    ensures Parse(INFINITE + "," + Items(b, 2 * |b.words|)) == (Done(b.words), true)
  {
    hide Items, ParseGroups, LowWords, Commas;
    var n := 2 * |b.words|;
    var text := INFINITE + "," + Items(b, n);
    assert text[..|INFINITE|] == INFINITE && text[|INFINITE|..] == "," + Items(b, n);
    assert text[|INFINITE|..][1..] == Items(b, n);
    ItemsCommas(b, n);
    ItemsRoundTrip(b, n, ZERO);
    AllWords(b);
  }

  lemma AllWords(b: Bits)
    ensures LowWords(b, 2 * |b.words|, ZERO) == b.words
  {
    assert b.words[..|b.words|] == b.words;
  }

  lemma FullParse()
    ensures Parse(INFINITE) == (Done([FULL]), true)
  {
    hide ParseGroups, Commas;
    assert INFINITE[|INFINITE|..] == "" && INFINITE[..|INFINITE|] == INFINITE;
  }

  /** Parsing what was printed gives the same set, whatever words the bitmap has: zero groups that
      were left out, an odd number of groups, finite or infinite. */
  lemma RoundTrip(b: Bits)
    requires |b.words| >= 1
    ensures Text(b) != "" && Text(b)[0] != ','
    ensures Parse(Text(b)).0.Done?
    ensures Set(Bits(Parse(Text(b)).0.words, Parse(Text(b)).1)) == Set(b)
  {
    hide Items, Group, AnyBit, Parse, LowWords, Top, Set;
    var n := 2 * |b.words|;
    if !b.infinite {
      var t := Top(b, n);
      TopDropsNothing(b, n);
      TopIsSet(b, n);
      FiniteParse(b, t);
      SameSet(b, t);
    } else if b.words == [FULL] {
      FullParse();
    } else {
      InfiniteParse(b);
    }
  }

  lemma {:induction false} TopIsSet(b: Bits, g: nat)
    requires 0 < g <= 2 * |b.words|
    ensures AnyBit(Group(b, Top(b, g) - 1)) || Top(b, g) == 1
  {
    if !(g == 1 || AnyBit(Group(b, g - 1))) {
      TopIsSet(b, g - 1);
    }
  }

  /** A finite text has a digit or a comma where an infinite one has a dot. */
  lemma NotInfinite(b: Bits, t: nat)
    requires 0 < t <= 2 * |b.words| && (AnyBit(Group(b, t - 1)) || t == 1)
    ensures !StartsInfinite(Items(b, t))
  {
    var text := Items(b, t);
    if AnyBit(Group(b, t - 1)) {
      DigitsHaveNoComma(Group(b, t - 1));
      assert text[3] == HexDigits(Group(b, t - 1))[1];
      assert DigitValue('.') < 0;
      assert INFINITE[3] == '.';
    }
  }
}
