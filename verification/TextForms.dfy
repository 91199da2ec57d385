/** The form of the texts that are printed for bitmaps (src/cpuset.c): which of all the texts with the same
    meaning it is. */
module TextForms {
  import opened Bitmap
  import opened Collections
  import opened HexText
  import opened DigitMeaning
  import opened HexMeaning
  import BitmapText
  import BitmapTaskset
  import BitmapList
  import DecimalText

  ghost predicate LowerCase(digits: string) {
    forall k :: 0 <= k < |digits| ==> IsLower(digits[k])
  }

  ghost predicate IsLower(c: char) {
    exists v: nat :: v < 16 && c == LOWER_CASE[v]
  }

  lemma {:induction false} DigitsAreLower(bits: seq<bool>)
    requires |bits| % 4 == 0
    ensures LowerCase(HexDigits(bits)) && AllHex(HexDigits(bits)) && |HexDigits(bits)| == |bits| / 4
  {
    hide IsHex;
    if bits != [] {
      DigitsAreLower(bits[4..]);
      DigitIsLower(bits[..4]);
    }
  }

  lemma DigitIsLower(bits: seq<bool>)
    requires |bits| == 4
    ensures IsLower(HexDigit(bits)) && IsHex(HexDigit(bits))
  {
    var v := (if bits[0] then 1 else 0) + (if bits[1] then 2 else 0) + (if bits[2] then 4 else 0)
        + (if bits[3] then 8 else 0);
    assert HexDigit(bits) == LOWER_CASE[v] && IsDigitOf(LOWER_CASE[v], v);
  }

  /** The digits have the bits that they are printed for. */
  lemma DigitsHold(bits: seq<bool>)
    requires |bits| % 4 == 0
    ensures DigitBits(HexDigits(bits)) == bits
  {
    hide IsHex, HexDigits, DigitBits, DigitValue;
    DigitsAreLower(bits);
    ReadMeans(HexDigits(bits), "", []);
    DigitsRoundTrip(bits, "", []);
    StopsReading("", bits + []);
    assert bits + [] == bits && DigitBits(HexDigits(bits)) + [] == DigitBits(HexDigits(bits));
  }

  // ---- The hexadecimal form ----

  /** A group is eight lower-case digits after `0x`, nothing when they would be zeros, or `0x0` when they
      would be and it is the last one. */
  ghost predicate IsPrinted(g: Group, last: bool) {
    || (g.prefix == "0x" && |g.digits| == 8 && LowerCase(g.digits) && SomeBit(g.digits))
    || (g == if last then Group("0x", "0") else Group("", ""))
  }

  ghost predicate SomeBit(digits: string) {
    exists i :: TextBit(digits, i)
  }

  ghost predicate AllPrinted(groups: seq<Group>) {
    forall k :: 0 <= k < |groups| ==> IsPrinted(groups[k], k == |groups| - 1)
  }

  function GroupAt(b: Bits, g: nat): Group
    requires g < 2 * |b.words|
  {
    var bits := BitmapText.Group(b, g);
    if BitmapText.AnyBit(bits) then Group("0x", HexDigits(bits)) else if g == 0 then Group("0x", "0") else Group("", "")
  }

  function GroupsOf(b: Bits, g: nat): (groups: seq<Group>)
    requires g <= 2 * |b.words|
    ensures |groups| == g
  {
    if g == 0 then [] else [GroupAt(b, g - 1)] + GroupsOf(b, g - 1)
  }

  lemma GroupIsPrinted(b: Bits, g: nat)
    requires g < 2 * |b.words|
    ensures IsPrinted(GroupAt(b, g), g == 0) && Written(GroupAt(b, g))
    ensures BitmapText.Item(b, g) == GroupAt(b, g).prefix + GroupAt(b, g).digits
    ensures g == 0 ==> GroupAt(b, g).digits != ""
    ensures BitmapText.AnyBit(BitmapText.Group(b, g)) ==> GroupAt(b, g).digits != ""
  {
    hide HexDigits, IsHex, LowerCase, TextBit;
    var bits := BitmapText.Group(b, g);
    DigitsAreLower(bits);
    DigitsHold(bits);
    if BitmapText.AnyBit(bits) {
      var i :| 0 <= i < |bits| && bits[i];
      assert TextBit(HexDigits(bits), i);
    } else {
      assert IsDigitOf('0', 0);
      assert IsHex('0') by { DigitMeans('0'); }
    }
  }

  lemma {:induction false} ItemsArePrinted(b: Bits, g: nat)
    requires 0 < g <= 2 * |b.words|
    ensures
      var groups := GroupsOf(b, g);
      && AllPrinted(groups) && AllWritten(groups) && BitmapText.Items(b, g) == Joined(groups)
      && groups[0] == GroupAt(b, g - 1) && groups[g - 1].digits != ""
  {
    hide IsPrinted, GroupAt, Written, BitmapText.Item, BitmapText.Group, BitmapText.AnyBit;
    GroupIsPrinted(b, g - 1);
    var groups := GroupsOf(b, g);
    if g > 1 {
      ItemsArePrinted(b, g - 1);
      assert groups[1..] == GroupsOf(b, g - 1);
    } else {
      assert GroupsOf(b, 0) == [] && groups == [GroupAt(b, 0)];
    }
  }

  /** All groups of an infinite set are printed; those of a finite one from the first that is not zero. */
  lemma HexForm(b: Bits) returns (groups: seq<Group>)
    requires |b.words| >= 1
    ensures WellWritten(groups) && AllPrinted(groups)
    ensures BitmapText.Text(b) == if b.infinite && b.words == [FULL] then "0xf...f" else TextOf(b.infinite, groups)
    ensures if b.infinite then |groups| == 2 * |b.words| else |groups| == 1 || groups[0].digits != ""
  {
    hide IsPrinted, GroupAt, Written, BitmapText.Items, BitmapText.Group, BitmapText.AnyBit;
    var n := if b.infinite then 2 * |b.words| else BitmapText.Top(b, 2 * |b.words|);
    groups := GroupsOf(b, n);
    ItemsArePrinted(b, n);
    GroupIsPrinted(b, n - 1);
    assert "" + Joined(groups) == Joined(groups);
    if b.infinite {
      assert INFINITE + "," == "0xf...f,";
    } else {
      TopHasBit(b, 2 * |b.words|);
    }
  }

  lemma {:induction false} TopHasBit(b: Bits, g: nat)
    requires 0 < g <= 2 * |b.words|
    ensures
      var t := BitmapText.Top(b, g);
      t == 1 || BitmapText.AnyBit(BitmapText.Group(b, t - 1))
  {
    hide BitmapText.Group, BitmapText.AnyBit;
    if g > 1 && !BitmapText.AnyBit(BitmapText.Group(b, g - 1)) {
      TopHasBit(b, g - 1);
    }
  }

  // ---- The taskset form ----

  lemma {:induction false} MinimalIsLower(digits: string)
    requires LowerCase(digits) && digits != ""
    ensures
      var m := BitmapTaskset.Minimal(digits);
      LowerCase(m) && m != "" && (|m| == 1 || m[0] != '0')
    decreases |digits|
  {
    hide IsLower;
    if |digits| > 1 && digits[0] == '0' {
      MinimalIsLower(digits[1..]);
    }
  }

  lemma {:induction false} WordsAreLower(words: seq<Word>, n: nat)
    requires n <= |words|
    ensures LowerCase(BitmapTaskset.Words(words, n)) && |BitmapTaskset.Words(words, n)| == 16 * n
  {
    hide IsLower, HexDigits;
    if n > 0 {
      DigitsAreLower(words[n - 1]);
      WordsAreLower(words, n - 1);
    }
  }

  /** One number without zeros in front for a finite set; all digits of the words for an infinite one. */
  lemma TasksetForm(b: Bits) returns (digits: string)
    requires |b.words| >= 1
    ensures LowerCase(digits)
    ensures BitmapTaskset.Text(b) == (if b.infinite then "0xf...f" else "0x") + digits
    ensures if !b.infinite then digits != "" && (|digits| == 1 || digits[0] != '0')
      else |digits| == if b.words == [FULL] then 0 else 16 * |b.words|
  {
    hide LowerCase, HexDigits, BitmapTaskset.Minimal, BitmapTaskset.Words, BitmapTaskset.Rest;
    if b.infinite {
      digits := if b.words == [FULL] then "" else BitmapTaskset.Words(b.words, |b.words|);
      WordsAreLower(b.words, |b.words|);
      assert LowerCase("") by { NoneIsLower(); }
      assert INFINITE + "" == INFINITE;
    } else {
      var t := BitmapTaskset.Top(b.words, |b.words|);
      var first, rest := HexDigits(b.words[t - 1]), BitmapTaskset.Words(b.words, t - 1);
      BitmapTaskset.TopIsFirst(b.words, |b.words|);
      digits := BitmapTaskset.Minimal(first) + rest;
      DigitsAreLower(b.words[t - 1]);
      MinimalIsLower(first);
      WordsAreLower(b.words, t - 1);
      BothLower(BitmapTaskset.Minimal(first), rest);
      TopWordCounts(b.words, |b.words|);
      if t > 1 {
        NotJustZero(b.words[t - 1]);
      }
      assert "0x" + BitmapTaskset.Minimal(first) + rest == "0x" + digits;
    }
  }

  lemma {:induction false} TopWordCounts(words: seq<Word>, n: nat)
    requires 0 < n <= |words|
    ensures
      var t := BitmapTaskset.Top(words, n);
      t == 1 || words[t - 1] != ZERO
  {
    if words[n - 1] == ZERO && n > 1 {
      TopWordCounts(words, n - 1);
    }
  }

  lemma NotJustZero(w: Word)
    requires w != ZERO
    ensures BitmapTaskset.Minimal(HexDigits(w)) != "0"
  {
    hide HexDigits, HexDigit, BitmapTaskset.Minimal;
    var n := BitmapTaskset.MinimalDigits(w);
    if BitmapTaskset.Minimal(HexDigits(w)) == "0" {
      BitmapTaskset.LowestDigit(w[..n]);
      DigitsAreLower(w[..n]);
      assert n == 4 && w[..n][..4] == w[..4];
      BitmapTaskset.ZeroDigit(w[..4]);
      assert forall k :: 0 <= k < 4 ==> w[..4][k] == w[k];
      NoBitIsZero(w);
    }
  }

  lemma NoBitIsZero(w: Word)
    requires forall k :: 0 <= k < BITS ==> !w[k]
    ensures w == ZERO
  {
  }

  lemma NoneIsLower()
    ensures LowerCase("")
  {
  }

  lemma BothLower(a: string, b: string)
    requires LowerCase(a) && LowerCase(b)
    ensures LowerCase(a + b)
  {
    hide IsLower;
  }

  // ---- The list form ----

  /** Single numbers, ranges with their last number, and an open end. */
  lemma ListForm()
    ensures BitmapList.Text([BitmapList.Run(0, 3), BitmapList.Run(5, 6), BitmapList.Run(17, -1)], false) == "0-2,5,17-"
    ensures BitmapList.Text([], false) == ""
  {
    hide BitmapList.Item;
    var runs := [BitmapList.Run(0, 3), BitmapList.Run(5, 6), BitmapList.Run(17, -1)];
    assert runs[1..] == [BitmapList.Run(5, 6), BitmapList.Run(17, -1)] && runs[1..][1..] == [BitmapList.Run(17, -1)];
    ItemForms();
  }

  lemma ItemForms()
    ensures BitmapList.Item(BitmapList.Run(0, 3)) == "0-2" && BitmapList.Item(BitmapList.Run(5, 6)) == "5"
    ensures BitmapList.Item(BitmapList.Run(17, -1)) == "17-"
  {
    assert DecimalText.Decimal(1) == "" + "1";
    assert DecimalText.Decimal(17) == "1" + "7";
  }
}
