/** What the list texts of bitmaps mean (src/cpuset.c), whoever wrote them: decimal, octal and hexadecimal
    numbers, ranges, and more commas than there need to be. */
module ListMeaning {
  import opened Bitmap
  import opened BitmapList
  import opened DecimalText
  import opened DigitMeaning
  import HexText

  // ---- Numbers ----

  ghost predicate IsDigitIn(c: char, base: nat) {
    exists v: nat :: IsDigitOf(c, v) && v < base
  }

  ghost predicate DigitsIn(digits: string, base: nat) {
    forall k :: 0 <= k < |digits| ==> IsDigitIn(digits[k], base)
  }

  ghost function ValueOf(c: char): nat {
    if v: nat :| IsDigitOf(c, v) then v else 0
  }

  ghost function NumberOf(digits: string, base: nat): nat {
    if digits == "" then 0
    else
      var n := |digits| - 1;
      NumberOf(digits[..n], base) * base + ValueOf(digits[n])
  }

  /** A prefix makes it hexadecimal, a zero at the start octal. */
  datatype Numeral = Numeral(prefix: string, digits: string) {
    ghost function Base(): nat {
      if prefix != "" then 16 else if digits != "" && digits[0] == '0' then 8 else 10
    }

    ghost predicate Good() {
      IsPrefix(prefix) && digits != "" && DigitsIn(digits, Base())
    }

    ghost function Value(): nat {
      NumberOf(digits, Base())
    }
  }

  lemma DigitIs(c: char, base: nat)
    requires base <= 16
    ensures IsDigit(c, base) <==> IsDigitIn(c, base)
    ensures IsDigitIn(c, base) ==> ValueOf(c) == HexText.DigitValue(c)
  {
    hide IsDigitOf, HexText.DigitValue;
    DigitOfValue(c);
    forall v: nat | IsDigitOf(c, v)
      ensures HexText.DigitValue(c) == v
    {
      ValueOfDigit(c, v);
    }
  }

  lemma {:induction false} ReadFrom(digits: string, k: nat, rest: string, base: nat)
    requires base in {8, 10, 16} && DigitsIn(digits, base) && k <= |digits|
    requires rest == "" || !IsDigitIn(rest[0], base)
    ensures ReadNumber(digits[k..] + rest, base, NumberOf(digits[..k], base)) == (NumberOf(digits, base), rest)
    decreases |digits| - k
  {
    hide IsDigitIn, HexText.DigitValue, IsDigit, ValueOf;
    var text := digits[k..] + rest;
    if k == |digits| {
      assert digits[..k] == digits && text == rest;
      if rest != "" {
        DigitIs(rest[0], base);
      }
    } else {
      DigitIs(digits[k], base);
      ReadFrom(digits, k + 1, rest, base);
      assert text[1..] == digits[k + 1..] + rest;
      assert digits[..k + 1][..k] == digits[..k] && digits[..k + 1][k] == digits[k];
    }
  }

  /** A number up to a character that cannot be part of it. */
  lemma ReadMeansNumber(digits: string, rest: string, base: nat)
    requires base in {8, 10, 16} && DigitsIn(digits, base) && (rest == "" || !IsDigitIn(rest[0], base))
    ensures ReadNumber(digits + rest, base, 0) == (NumberOf(digits, base), rest)
  {
    ReadFrom(digits, 0, rest, base);
    assert digits[0..] == digits && digits[..0] == "";
  }

  lemma NoDigit(c: char, base: nat)
    requires base <= 16 && c in ",-xX"
    ensures !IsDigitIn(c, base)
  {
    DigitIs(c, base);
  }

  lemma NumeralRead(n: Numeral, rest: string)
    requires n.Good() && EndsNumber(rest)
    ensures Strtoul0(n.prefix + n.digits + rest) == (n.Value(), rest)
  {
    hide IsDigitIn, IsDigit, ReadNumber, HexText.DigitValue, NumberOf;
    var text := n.prefix + n.digits + rest;
    if rest != "" {
      NoDigit(rest[0], n.Base());
    }
    ReadMeansNumber(n.digits, rest, n.Base());
    DigitIs(n.digits[0], n.Base());
    if n.prefix != "" {
      assert text[2..] == n.digits + rest && text[0] == '0' && text[1] in "xX" && text[2] == n.digits[0];
    } else {
      assert text == n.digits + rest;
      if |n.digits| > 1 {
        assert IsDigitIn(n.digits[1], n.Base());
        if n.digits[1] in "xX" {
          NoDigit(n.digits[1], n.Base());
        }
      }
    }
  }

  // ---- Lists ----

  /** A number, a range, or at the end a range without end; after any commas. */
  datatype Item = One(commas: string, n: Numeral) | Upto(commas: string, n: Numeral, last: Numeral)
                | Open(commas: string, n: Numeral)

  ghost predicate GoodNumber(n: Numeral) {
    n.Good() && n.Value() < INT_VALUES
  }

  ghost predicate GoodItem(item: Item) {
    && (forall k :: 0 <= k < |item.commas| ==> item.commas[k] == ',')
    && GoodNumber(item.n) && (item.Upto? ==> GoodNumber(item.last))
  }

  ghost predicate GoodItems(items: seq<Item>) {
    forall k :: 0 <= k < |items| ==> GoodItem(items[k]) && (items[k].Open? ==> k == |items| - 1)
  }

  function NumeralText(n: Numeral): string {
    n.prefix + n.digits
  }

  function ItemText(item: Item): string {
    item.commas + (NumeralText(item.n) + (match item
      case One(_, _) => ""
      case Upto(_, _, last) => "-" + NumeralText(last)
      case Open(_, _) => "-"))
  }

  function ListText(items: seq<Item>): string {
    if items == [] then "" else ItemText(items[0]) + if |items| == 1 then "" else "," + ListText(items[1..])
  }

  /** How many words have been needed: at least one, and enough for every member so far. */
  ghost function WordsSoFar(items: seq<Item>, count: nat): nat
    requires GoodItems(items)
  {
    if items == [] || items[0].Open? then count else
    assert GoodItem(items[0]);
    var last := if items[0].Upto? then items[0].last.Value() else items[0].n.Value();
    var needed := if items[0].n.Value() <= last && last / 64 + 1 > count then last / 64 + 1 else count;
    WordsSoFar(items[1..], needed)
  }

  /** `i` is in the item. A range without end starts at the end of the words, at the latest. */
  ghost predicate IsIn(item: Item, words: nat, i: nat)
    requires GoodItem(item)
  {
    match item
    case One(_, n) => i == n.Value()
    case Upto(_, n, last) => n.Value() <= i <= last.Value()
    case Open(_, n) => i >= n.Value() || i >= 64 * words
  }

  ghost predicate IsInSome(items: seq<Item>, count: nat, i: nat)
    requires GoodItems(items)
  {
    exists k :: 0 <= k < |items| && IsIn(items[k], WordsSoFar(items, count), i)
  }

  ghost function Told(items: seq<Item>, count: nat): iset<nat>
    requires GoodItems(items)
  {
    iset i: nat | IsInSome(items, count, i)
  }

  lemma {:induction false} CommasSkipped(commas: string, rest: string)
    requires (forall k :: 0 <= k < |commas| ==> commas[k] == ',') && rest != "" && rest[0] != ','
    ensures SkipCommas(commas + rest) == rest
  {
    if commas == "" {
      assert commas + rest == rest;
    } else {
      CommasSkipped(commas[1..], rest);
      assert (commas + rest)[1..] == commas[1..] + rest;
    }
  }

  lemma NumeralStarts(n: Numeral)
    requires n.Good()
    ensures NumeralText(n) != "" && NumeralText(n)[0] !in ",-"
  {
    hide IsDigitIn;
    if n.digits[0] in ",-" {
      NoDigit(n.digits[0], n.Base());
    }
  }

  lemma NumberComes(commas: string, n: Numeral, rest: string)
    requires n.Good() && EndsNumber(rest) && forall k :: 0 <= k < |commas| ==> commas[k] == ','
    ensures
      var text := commas + (NumeralText(n) + rest);
      text != "" && Strtoul0(SkipCommas(text)) == (n.Value(), rest) && |rest| < |SkipCommas(text)|
  {
    hide Strtoul0, SkipCommas, NumberOf;
    NumeralStarts(n);
    CommasSkipped(commas, NumeralText(n) + rest);
    NumeralRead(n, rest);
  }

  ghost predicate EndsItem(rest: string) {
    rest == "" || rest[0] == ','
  }

  lemma OneRead(item: Item, rest: string, bits: iset<nat>, count: nat)
    requires item.One? && GoodItem(item) && EndsItem(rest)
    ensures
      var v := item.n.Value();
      Meaning(ItemText(item) + rest, -1, bits, count)
      == if rest == "" then Is(bits + iset{v}) else Meaning(rest[1..], -1, bits + iset{v}, Grown(count, v))
  {
    hide Strtoul0, SkipCommas, NumberOf, Grown, NumeralText;
    NumberComes(item.commas, item.n, rest);
    assert ItemText(item) + rest == item.commas + (NumeralText(item.n) + rest);
  }

  lemma UptoRead(item: Item, rest: string, bits: iset<nat>, count: nat)
    requires item.Upto? && GoodItem(item) && EndsItem(rest)
    ensures
      var v, w := item.n.Value(), item.last.Value();
      var more := bits + Range(v, w);
      Meaning(ItemText(item) + rest, -1, bits, count)
      == if rest == "" then Is(more) else Meaning(rest[1..], -1, more, if v <= w then Grown(count, w) else count)
  {
    hide Strtoul0, SkipCommas, NumberOf, Grown, NumeralText, Range;
    var later := NumeralText(item.last) + rest;
    NumeralStarts(item.last);
    NumberComes(item.commas, item.n, "-" + later);
    NumberComes("", item.last, rest);
    assert "" + later == later && ("-" + later)[1..] == later;
    assert ItemText(item) + rest == item.commas + (NumeralText(item.n) + ("-" + later));
  }

  lemma OpenRead(item: Item, bits: iset<nat>, count: nat)
    requires item.Open? && GoodItem(item)
    ensures
      var v := item.n.Value();
      Meaning(ItemText(item), -1, bits, count) == Is(bits + FromOn(if v < count * BITS then v else count * BITS))
  {
    hide Strtoul0, SkipCommas, NumberOf, NumeralText, FromOn;
    NumberComes(item.commas, item.n, "-");
  }

  ghost function ItemSet(item: Item, count: nat): iset<nat>
    requires GoodItem(item)
  {
    iset i: nat | IsIn(item, count, i)
  }

  ghost function Needed(item: Item, count: nat): nat
    requires GoodItem(item)
  {
    match item
    case One(_, n) => Grown(count, n.Value())
    case Upto(_, n, last) => if n.Value() <= last.Value() then Grown(count, last.Value()) else count
    case Open(_, _) => count
  }

  lemma FirstRead(item: Item, rest: string, bits: iset<nat>, count: nat)
    requires GoodItem(item) && EndsItem(rest) && (item.Open? ==> rest == "")
    ensures Meaning(ItemText(item) + rest, -1, bits, count)
      == if rest == "" then Is(bits + ItemSet(item, count))
        else Meaning(rest[1..], -1, bits + ItemSet(item, count), Needed(item, count))
  {
    hide Meaning, ItemText, NumberOf, Grown;
    match item
    case One(_, n) =>
      OneRead(item, rest, bits, count);
      assert ItemSet(item, count) == iset{n.Value()};
    case Upto(_, n, last) =>
      UptoRead(item, rest, bits, count);
      assert ItemSet(item, count) == Range(n.Value(), last.Value());
    case Open(_, n) =>
      OpenRead(item, bits, count);
      assert ItemText(item) + rest == ItemText(item);
      var v := n.Value();
      assert ItemSet(item, count) == FromOn(if v < count * BITS then v else count * BITS);
  }

  lemma WordsStep(items: seq<Item>, count: nat)
    requires GoodItems(items) && items != [] && !items[0].Open?
    ensures GoodItem(items[0]) && GoodItems(items[1..])
    ensures WordsSoFar(items, count) == WordsSoFar(items[1..], Needed(items[0], count))
  {
    hide NumberOf;
    assert GoodItem(items[0]);
  }

  lemma ToldStep(items: seq<Item>, count: nat)
    requires GoodItems(items) && items != []
    ensures GoodItem(items[0]) && GoodItems(items[1..])
    ensures |items| == 1 ==> Told(items, count) == ItemSet(items[0], count)
    ensures |items| > 1 ==>
        !items[0].Open? && Told(items, count) == ItemSet(items[0], count) + Told(items[1..], Needed(items[0], count))
  {
    hide NumberOf, Needed, GoodItem;
    var item, rest := items[0], items[1..];
    assert GoodItem(item) && (item.Open? ==> |items| == 1);
    if item.Open? {
      assert WordsSoFar(items, count) == count;
    } else {
      WordsStep(items, count);
      SameUnlessOpen(item, count, WordsSoFar(items, count));
    }
    var words := WordsSoFar(items, count);
    forall i: nat
      ensures IsInSome(items, count, i)
        <==> IsIn(item, words, i) || exists k :: 0 <= k < |rest| && IsIn(rest[k], words, i)
    {
      SomeStep(items, words, i);
    }
  }

  lemma SameUnlessOpen(item: Item, m: nat, n: nat)
    requires GoodItem(item) && !item.Open?
    ensures forall i: nat :: IsIn(item, m, i) <==> IsIn(item, n, i)
  {
  }

  lemma SomeStep(items: seq<Item>, words: nat, i: nat)
    requires GoodItems(items) && items != []
    ensures (exists k :: 0 <= k < |items| && IsIn(items[k], words, i))
      <==> IsIn(items[0], words, i) || exists k :: 0 <= k < |items[1..]| && IsIn(items[1..][k], words, i)
  {
    hide IsIn, GoodItem;
    assert forall k :: 0 <= k < |items[1..]| ==> items[1..][k] == items[k + 1];
    if k :| 0 <= k < |items| && IsIn(items[k], words, i) {
      assert k == 0 || items[1..][k - 1] == items[k];
    }
  }

  lemma {:induction false} ItemsRead(items: seq<Item>, bits: iset<nat>, count: nat)
    requires GoodItems(items)
    ensures Meaning(ListText(items), -1, bits, count) == Is(bits + Told(items, count))
    decreases |items|
  {
    hide Meaning, ItemText, GoodItem, Told, ItemSet, Needed;
    if items == [] {
      NothingTold(bits, count);
    } else {
      var rest := if |items| == 1 then "" else "," + ListText(items[1..]);
      ToldStep(items, count);
      FirstRead(items[0], rest, bits, count);
      if |items| > 1 {
        assert rest[1..] == ListText(items[1..]);
        ItemsRead(items[1..], bits + ItemSet(items[0], count), Needed(items[0], count));
        assert (bits + ItemSet(items[0], count)) + Told(items[1..], Needed(items[0], count))
          == bits + (ItemSet(items[0], count) + Told(items[1..], Needed(items[0], count)));
      }
    }
  }

  lemma NothingTold(bits: iset<nat>, count: nat)
    ensures Meaning("", -1, bits, count) == Is(bits + Told([], count))
  {
    assert Told([], count) == iset{};
  }

  /** A list is read as the numbers and ranges in it. */
  lemma ListMeans(items: seq<Item>, i: nat)
    requires GoodItems(items)
    ensures
      var parsed := Meaning(ListText(items), -1, iset{}, 1);
      parsed.Is? && (i in parsed.bits <==> IsInSome(items, 1, i))
  {
    hide Meaning, ListText, IsInSome;
    ItemsRead(items, iset{}, 1);
  }
}
