/** What the comma-separated hexadecimal texts and the taskset texts of bitmaps mean (src/cpuset.c),
    whoever wrote them: digits of either case, groups shorter than they could be, prefixes or not. */
module HexMeaning {
  import opened Bitmap
  import opened Collections
  import opened HexText
  import opened DigitMeaning
  import BitmapText
  import BitmapTaskset

  // ---- Groups and commas ----

  /** One group of the text; an empty one stands for zero. */
  datatype Group = Group(prefix: string, digits: string)

  ghost predicate Written(g: Group) {
    IsPrefix(g.prefix) && AllHex(g.digits) && (g.prefix != "" ==> g.digits != "")
  }

  ghost predicate AllWritten(groups: seq<Group>) {
    forall k :: 0 <= k < |groups| ==> Written(groups[k])
  }

  /** Highest group first. */
  function Joined(groups: seq<Group>): string
    requires groups != []
  {
    groups[0].prefix + groups[0].digits + if |groups| == 1 then "" else "," + Joined(groups[1..])
  }

  /** The text must not end in a comma. */
  ghost predicate WellWritten(groups: seq<Group>) {
    groups != [] && AllWritten(groups) && Joined([groups[|groups| - 1]]) != ""
  }

  ghost function TextOf(infinite: bool, groups: seq<Group>): string
    requires groups != []
  {
    (if infinite then "0xf...f," else "") + Joined(groups)
  }

  /** A number that does not fit into 64 bits is read as the largest one that does. */
  ghost predicate NumberBit(digits: string, i: nat) {
    TextBit(digits, i) || TooLong(digits)
  }

  ghost predicate TooLong(digits: string) {
    exists i :: i >= BITS && TextBit(digits, i)
  }

  /** Bit `i` of the text is bit `i - 32 * g` of group `g` from the right. */
  ghost predicate PartBit(groups: seq<Group>, g: nat, i: nat) {
    g < |groups| && i >= 32 * g && NumberBit(groups[|groups| - 1 - g].digits, i - 32 * g)
  }

  /** The groups are 32 bits apart but go into words of 64 bits: the lower one of a word reaches into its
      upper half when it has more than 8 digits, the upper one is cut there. */
  ghost predicate GroupBit(groups: seq<Group>, i: nat) {
    PartBit(groups, 2 * (i / 64), i) || PartBit(groups, 2 * (i / 64) + 1, i)
  }

  /** With at most 8 digits in every group, bit `i` is in group `i / 32` from the right. */
  lemma ShortGroups(groups: seq<Group>, i: nat)
    requires forall k :: 0 <= k < |groups| ==> |groups[k].digits| <= 8
    ensures GroupBit(groups, i)
      <==> i / 32 < |groups| && TextBit(groups[|groups| - 1 - i / 32].digits, i % 32)
  {
    hide TextBit;
    var low, high := 2 * (i / 64), 2 * (i / 64) + 1;
    assert i == 64 * (i / 64) + i % 64;
    ShortPart(groups, low, i);
    ShortPart(groups, high, i);
    if i % 64 < 32 {
      assert i / 32 == low && i % 32 == i - 32 * low;
    } else {
      assert i / 32 == high && i % 32 == i - 32 * high;
    }
  }

  lemma ShortPart(groups: seq<Group>, g: nat, i: nat)
    requires forall k :: 0 <= k < |groups| ==> |groups[k].digits| <= 8
    ensures PartBit(groups, g, i)
      <==> g < |groups| && 32 * g <= i < 32 * g + 32 && TextBit(groups[|groups| - 1 - g].digits, i - 32 * g)
  {
    hide TextBit;
    if g < |groups| {
      var digits := groups[|groups| - 1 - g].digits;
      forall j: nat | j >= 32
        ensures !TextBit(digits, j)
      {
        ShortText(digits, j);
      }
    }
  }

  /** The highest word may hold one group only. */
  function WordsOf(n: nat): nat {
    (n + 1) / 2
  }

  lemma FirstGroup(groups: seq<Group>)
    requires groups != [] && Written(groups[0])
    ensures
      var rest := if |groups| == 1 then "" else "," + Joined(groups[1..]);
      Strtoul16(Joined(groups)) == (DigitBits(groups[0].digits), rest)
  {
    hide Strtoul16, DigitBits;
    var rest := if |groups| == 1 then "" else "," + Joined(groups[1..]);
    NumberMeans(groups[0].prefix, groups[0].digits, rest);
  }

  /** No comma, and no point. */
  predicate Bare(text: string) {
    ',' !in text && '.' !in text
  }

  lemma WrittenIsBare(g: Group)
    requires Written(g)
    ensures Bare(g.prefix + g.digits)
  {
    hide IsHex;
    NotHexX(',');
    NotHexX('.');
  }

  lemma {:induction false} BareCommas(text: string, rest: string)
    requires Bare(text)
    ensures BitmapText.Commas(text + rest) == BitmapText.Commas(rest)
  {
    if text == "" {
      assert text + rest == rest;
    } else {
      assert text[0] in text && (text + rest)[1..] == text[1..] + rest;
      BareCommas(text[1..], rest);
    }
  }

  lemma {:induction false} JoinedCommas(groups: seq<Group>)
    requires groups != [] && AllWritten(groups)
    ensures 1 + BitmapText.Commas(Joined(groups)) == |groups| && '.' !in Joined(groups)
    decreases |groups|
  {
    hide Written;
    var first := groups[0].prefix + groups[0].digits;
    WrittenIsBare(groups[0]);
    if |groups| == 1 {
      assert Joined(groups) == first + "";
      BareCommas(first, "");
    } else {
      JoinedCommas(groups[1..]);
      BareCommas(first, "," + Joined(groups[1..]));
      assert ("," + Joined(groups[1..]))[1..] == Joined(groups[1..]);
    }
  }

  /** The bits of a group go to the lower or the upper half of a word. */
  lemma PlacedMeans(accum: Word, digits: string, group: nat, k: nat)
    requires k < BITS
    ensures
      var low := 32 * (group % 2);
      BitmapText.Placed(accum, DigitBits(digits), group)[k] <==> accum[k] || (k >= low && NumberBit(digits, k - low))
  {
    hide TextBit;
    var low := 32 * (group % 2);
    assert BitmapText.HALF * group % BITS == low;
    if k >= low {
      WordMeans(digits, k - low);
    }
  }

  lemma WordMeans(digits: string, i: nat)
    requires i < BITS
    ensures ToWord(DigitBits(digits))[i] <==> NumberBit(digits, i)
  {
    hide TextBit;
    var bits := DigitBits(digits);
    forall j: nat | j >= |bits|
      ensures !TextBit(digits, j)
    {
      ShortText(digits, j);
    }
    if TooLong(digits) {
      var j: nat :| j >= BITS && TextBit(digits, j);
      assert bits[j];
    }
  }

  lemma ShortText(digits: string, i: nat)
    requires i >= 4 * |digits|
    ensures !TextBit(digits, i)
  {
  }

  /** A bit of the words of some groups, when `accum` is there already in the highest one. */
  ghost predicate RightBit(words: seq<Word>, groups: seq<Group>, accum: Word, w: nat, k: nat)
    requires w < |words| && k < BITS
  {
    words[w][k] <==> GroupBit(groups, 64 * w + k) || (w == |words| - 1 && accum[k])
  }

  ghost predicate Holds(words: seq<Word>, groups: seq<Group>, accum: Word) {
    && |words| == WordsOf(|groups|)
    && (forall w: nat, k: nat :: w < |words| && k < BITS ==> RightBit(words, groups, accum, w, k))
  }

  /** What the parser does at a comma. */
  lemma AtComma(text: string, count: nat, accum: Word, value: seq<bool>, rest: string)
    requires text != "" && count == 1 + BitmapText.Commas(text) && Strtoul16(text) == (value, "," + rest)
    requires count == 2 + BitmapText.Commas(rest)
    ensures
      var word := BitmapText.Placed(accum, value, count - 1);
      var below := BitmapText.ParseGroups(rest, count - 1, if (count - 1) % 2 == 0 then ZERO else word);
      BitmapText.ParseGroups(text, count, accum)
      == if (count - 1) % 2 == 0 then BitmapText.Above(below, [word]) else below
  {
    hide Strtoul16, BitmapText.Placed, BitmapText.Commas, BitmapText.Above, Repeat;
    assert ("," + rest)[1..] == rest;
  }

  lemma AtEnd(text: string, accum: Word, value: seq<bool>)
    requires text != "" && BitmapText.Commas(text) == 0 && Strtoul16(text) == (value, "")
    ensures BitmapText.ParseGroups(text, 1, accum) == BitmapText.Done([BitmapText.Placed(accum, value, 0)])
  {
    hide Strtoul16, BitmapText.Placed, BitmapText.Commas;
  }

  lemma JoinedSplits(groups: seq<Group>)
    requires |groups| > 1 && AllWritten(groups)
    ensures Joined(groups) != "" && AllWritten(groups[1..])
    ensures Joined([groups[|groups| - 1]]) == Joined([groups[1..][|groups| - 2]])
  {
    hide Written;
  }

  lemma {:induction false} GroupsMean(groups: seq<Group>, accum: Word)
    requires WellWritten(groups)
    requires |groups| % 2 == 0 ==> accum == ZERO
    ensures
      var p := (JoinedCommas(groups); BitmapText.ParseGroups(Joined(groups), |groups|, accum));
      p.Done? && Holds(p.words, groups, accum)
    decreases |groups|
  {
    hide Strtoul16, BitmapText.Placed, BitmapText.Commas, BitmapText.ParseGroups, Joined, Holds, Written, DigitBits;
    hide Repeat;
    JoinedCommas(groups);
    FirstGroup(groups);
    var n := |groups|;
    var value := DigitBits(groups[0].digits);
    var word := BitmapText.Placed(accum, value, n - 1);
    if n == 1 {
      assert groups == [groups[n - 1]];
      AtEnd(Joined(groups), accum, value);
      OneGroup(groups, accum, word);
    } else {
      var rest := groups[1..];
      JoinedSplits(groups);
      JoinedCommas(rest);
      AtComma(Joined(groups), n, accum, value, Joined(rest));
      var next := if (n - 1) % 2 == 0 then ZERO else word;
      GroupsMean(rest, next);
      var below := BitmapText.ParseGroups(Joined(rest), n - 1, next);
      if (n - 1) % 2 == 0 {
        EvenGroup(groups, accum, word, below.words);
      } else {
        OddGroup(groups, accum, word, below.words);
      }
    }
  }

  /** The first group is the highest one. */
  lemma HigherPart(groups: seq<Group>, g: nat, i: nat)
    requires groups != []
    ensures PartBit(groups, g, i)
      <==> if g == |groups| - 1 then i >= 32 * g && NumberBit(groups[0].digits, i - 32 * g)
        else PartBit(groups[1..], g, i)
    ensures g == |groups| - 1 ==> !PartBit(groups[1..], g, i)
  {
    hide NumberBit;
  }

  lemma OneGroup(groups: seq<Group>, accum: Word, word: Word)
    requires |groups| == 1
    requires word == BitmapText.Placed(accum, DigitBits(groups[0].digits), 0)
    ensures Holds([word], groups, accum)
  {
    hide BitmapText.Placed, DigitBits, NumberBit;
    forall k: nat | k < BITS
      ensures RightBit([word], groups, accum, 0, k)
    {
      PlacedMeans(accum, groups[0].digits, 0, k);
    }
  }

  /** A word of its own above the others. */
  lemma EvenGroup(groups: seq<Group>, accum: Word, word: Word, below: seq<Word>)
    requires |groups| > 1 && |groups| % 2 == 1
    requires word == BitmapText.Placed(accum, DigitBits(groups[0].digits), |groups| - 1)
    requires Holds(below, groups[1..], ZERO)
    ensures Holds(below + [word], groups, accum)
  {
    hide BitmapText.Placed, DigitBits, PartBit, NumberBit;
    var words := below + [word];
    forall w: nat, k: nat | w < |words| && k < BITS
      ensures RightBit(words, groups, accum, w, k)
    {
      InWord(groups, w, k);
      if w < |below| {
        assert words[w] == below[w] && !ZERO[k];
        assert RightBit(below, groups[1..], ZERO, w, k);
      } else {
        assert 2 * w == |groups| - 1;
        PlacedMeans(accum, groups[0].digits, |groups| - 1, k);
        NoPart(groups, 2 * w + 1, 64 * w + k);
      }
    }
  }

  /** The two groups of a word. */
  lemma InWord(groups: seq<Group>, w: nat, k: nat)
    requires groups != [] && k < BITS
    ensures GroupBit(groups, 64 * w + k)
      <==> PartBit(groups, 2 * w, 64 * w + k) || PartBit(groups, 2 * w + 1, 64 * w + k)
    ensures GroupBit(groups[1..], 64 * w + k)
      <==> PartBit(groups[1..], 2 * w, 64 * w + k) || PartBit(groups[1..], 2 * w + 1, 64 * w + k)
    ensures 2 * w < |groups| - 1 ==> PartBit(groups, 2 * w, 64 * w + k) == PartBit(groups[1..], 2 * w, 64 * w + k)
    ensures 2 * w + 1 < |groups| - 1
      ==> PartBit(groups, 2 * w + 1, 64 * w + k) == PartBit(groups[1..], 2 * w + 1, 64 * w + k)
    ensures 2 * w == |groups| - 1 ==> PartBit(groups, 2 * w, 64 * w + k) == NumberBit(groups[0].digits, k)
    ensures 2 * w + 1 == |groups| - 1
      ==> PartBit(groups, 2 * w + 1, 64 * w + k) == (k >= 32 && NumberBit(groups[0].digits, k - 32))
  {
    hide NumberBit, PartBit;
    assert (64 * w + k) / 64 == w;
    HigherPart(groups, 2 * w, 64 * w + k);
    HigherPart(groups, 2 * w + 1, 64 * w + k);
  }

  lemma NoPart(groups: seq<Group>, g: nat, i: nat)
    requires g >= |groups|
    ensures !PartBit(groups, g, i)
  {
  }

  /** The upper half of the highest word. */
  lemma OddGroup(groups: seq<Group>, accum: Word, word: Word, below: seq<Word>)
    requires |groups| > 1 && |groups| % 2 == 0 && accum == ZERO
    requires word == BitmapText.Placed(accum, DigitBits(groups[0].digits), |groups| - 1)
    requires Holds(below, groups[1..], word)
    ensures Holds(below, groups, accum)
  {
    hide BitmapText.Placed, DigitBits, PartBit, NumberBit;
    forall w: nat, k: nat | w < |below| && k < BITS
      ensures RightBit(below, groups, accum, w, k)
    {
      InWord(groups, w, k);
      assert RightBit(below, groups[1..], word, w, k);
      if w == |below| - 1 {
        assert 2 * w + 1 == |groups| - 1;
        PlacedMeans(accum, groups[0].digits, |groups| - 1, k);
        NoPart(groups[1..], 2 * w + 1, 64 * w + k);
      }
    }
  }

  /** Every text of groups is read, and member `i` is bit `i` of the text; past the words that the groups
      take there is nothing, or everything if the text says so. */
  lemma HexMeans(infinite: bool, groups: seq<Group>, i: nat)
    requires WellWritten(groups)
    ensures
      var (parsed, goesOn) := BitmapText.Parse(TextOf(infinite, groups));
      && parsed.Done? && goesOn == infinite
      && (Member(Bits(parsed.words, goesOn), i)
          <==> if i < 64 * WordsOf(|groups|) then GroupBit(groups, i) else infinite)
  {
    hide BitmapText.ParseGroups, GroupBit, Written, BitmapText.Commas, Joined, Holds, BitmapText.Parse, Repeat;
    var text := Joined(groups);
    JoinedCommas(groups);
    GroupsMean(groups, ZERO);
    if infinite {
      ParseInfinite(text);
    } else {
      ParseFinite(text);
      assert "" + text == text;
    }
    GroupMember(BitmapText.ParseGroups(text, |groups|, ZERO).words, infinite, groups, i);
  }

  lemma ParseInfinite(rest: string)
    ensures BitmapText.Parse("0xf...f," + rest)
      == (BitmapText.ParseGroups(rest, 1 + BitmapText.Commas(rest), ZERO), true)
  {
    hide BitmapText.ParseGroups, BitmapText.Commas, Repeat;
    var text := "0xf...f," + rest;
    assert text[..|INFINITE|] == INFINITE && text[|INFINITE|..][1..] == rest;
  }

  lemma ParseFinite(text: string)
    requires '.' !in text
    ensures BitmapText.Parse(text) == (BitmapText.ParseGroups(text, 1 + BitmapText.Commas(text), ZERO), false)
  {
    hide BitmapText.ParseGroups, BitmapText.Commas, Repeat;
    if BitmapText.StartsInfinite(text) {
      StartHasPoint(text);
    }
  }

  lemma StartHasPoint(text: string)
    requires BitmapText.StartsInfinite(text)
    ensures '.' in text
  {
    assert text[3] == text[..|INFINITE|][3] == '.';
  }

  lemma GroupMember(words: seq<Word>, infinite: bool, groups: seq<Group>, i: nat)
    requires Holds(words, groups, ZERO)
    ensures Member(Bits(words, infinite), i)
      <==> if i < 64 * WordsOf(|groups|) then GroupBit(groups, i) else infinite
  {
    hide GroupBit;
    var w, k := i / BITS, i % BITS;
    assert i == 64 * w + k;
    if w < |words| {
      assert !ZERO[k];
      assert RightBit(words, groups, ZERO, w, k);
    }
  }

  // ---- Nothing else is read ----

  lemma {:induction false} DigitsRead(text: string, acc: seq<bool>)
    ensures
      var rest := ReadDigits(text, acc).1;
      var n := |text| - |rest|;
      AllHex(text[..n]) && text == text[..n] + rest
    decreases |text|
  {
    hide IsHex, DigitValue;
    var rest := ReadDigits(text, acc).1;
    var n := |text| - |rest|;
    if text != "" && DigitValue(text[0]) >= 0 {
      DigitsRead(text[1..], Nibble(DigitValue(text[0])) + acc);
      DigitMeans(text[0]);
      assert text[..n] == [text[0]] + text[1..][..n - 1];
    }
  }

  lemma NumberRead(text: string) returns (g: Group)
    ensures Written(g) && text == g.prefix + g.digits + Strtoul16(text).1
  {
    hide IsHex, DigitValue, ReadDigits;
    if |text| >= 3 && text[0] == '0' && text[1] in "xX" && DigitValue(text[2]) >= 0 {
      var rest := ReadDigits(text[2..], []).1;
      DigitsRead(text[2..], []);
      g := Group(text[..2], text[2..][..|text| - 2 - |rest|]);
      FirstIsRead(text[2..], []);
      assert text == text[..2] + text[2..] && text[..2] == [text[0], text[1]];
    } else {
      DigitsRead(text, []);
      g := Group("", text[..|text| - |ReadDigits(text, []).1|]);
    }
  }

  lemma FirstIsRead(text: string, acc: seq<bool>)
    requires text != "" && DigitValue(text[0]) >= 0
    ensures |ReadDigits(text, acc).1| < |text|
  {
    hide DigitValue;
  }

  lemma {:induction false} GroupsRead(text: string, count: nat, accum: Word) returns (groups: seq<Group>)
    requires count == 1 + BitmapText.Commas(text) && BitmapText.ParseGroups(text, count, accum).Done?
    ensures WellWritten(groups) && groups != [] && text == Joined(groups)
    decreases |text|
  {
    hide Strtoul16, BitmapText.Placed, BitmapText.Commas, Written, Repeat;
    BitmapText.NumberKeepsCommas(text);
    var (value, rest) := Strtoul16(text);
    var g := NumberRead(text);
    if rest == "" {
      groups := [g];
      assert text == g.prefix + g.digits + "" == Joined([g]);
    } else {
      var word := BitmapText.Placed(accum, value, count - 1);
      CommaFirst(rest);
      var below := GroupsRead(rest[1..], count - 1, if (count - 1) % 2 == 0 then ZERO else word);
      groups := [g] + below;
      assert rest == "," + rest[1..] && groups[1..] == below;
    }
  }

  lemma CommaFirst(rest: string)
    requires rest != "" && rest[0] == ','
    ensures BitmapText.Commas(rest) == 1 + BitmapText.Commas(rest[1..])
  {
  }

  /** What is read is such a text, or one that goes on after `0xf...f` without a comma. */
  lemma OnlyHexIsRead(text: string) returns (infinite: bool, groups: seq<Group>)
    requires BitmapText.Parse(text).0.Done?
    ensures WellWritten(groups)
    ensures text == TextOf(infinite, groups)
      || (|text| >= 7 && text[..7] == "0xf...f" && (|text| == 7 || text[7] != ','))
  {
    hide BitmapText.ParseGroups, WellWritten, BitmapText.Commas, Repeat;
    infinite, groups := false, [Group("", "0")];
    OneZero();
    if !BitmapText.StartsInfinite(text) {
      groups := GroupsRead(text, 1 + BitmapText.Commas(text), ZERO);
      assert text == "" + Joined(groups);
    } else if |text| > 7 && text[7] == ',' {
      infinite := true;
      groups := GroupsRead(text[8..], 1 + BitmapText.Commas(text[8..]), ZERO);
      assert text == "0xf...f," + text[8..];
    }
  }

  lemma OneZero()
    ensures WellWritten([Group("", "0")])
  {
    hide IsHex;
    assert IsDigitOf('0', 0);
    assert IsHex('0') by { DigitMeans('0'); }
  }
}
