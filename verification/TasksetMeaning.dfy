/** What the taskset texts of bitmaps mean (src/cpuset.c): digits of either case, any number of them. */
module TasksetMeaning {
  import opened Bitmap
  import opened Collections
  import opened HexText
  import opened DigitMeaning
  import opened HexMeaning
  import BitmapTaskset

  /** 16 digits to a word. */
  function WordsFor(digits: nat): nat {
    (digits + 15) / 16
  }

  ghost predicate RightDigit(words: seq<Word>, digits: string, w: nat, k: nat)
    requires w < |words| && k < BITS
  {
    words[w][k] <==> TextBit(digits, 64 * w + k)
  }

  ghost predicate Tells(words: seq<Word>, digits: string) {
    && |words| == WordsFor(|digits|)
    && (forall w: nat, k: nat :: w < |words| && k < BITS ==> RightDigit(words, digits, w, k))
  }

  lemma {:induction false} ChunksMean(digits: string)
    requires AllHex(digits)
    ensures BitmapTaskset.ParseChunks(digits).Done? && Tells(BitmapTaskset.ParseChunks(digits).words, digits)
    decreases |digits|
  {
    hide IsHex, Strtoul16, ToWord, TextBit, BitmapTaskset.FirstChunk, RightDigit;
    if digits != "" {
      var n := BitmapTaskset.FirstChunk(|digits|);
      var chunk, rest := digits[..n], digits[n..];
      NumberMeans("", chunk, "");
      assert "" + chunk + "" == chunk;
      ChunksMean(rest);
      AboveChunk(digits, n, BitmapTaskset.ParseChunks(rest).words);
    }
  }

  /** The first chunk is the highest word. */
  lemma AboveChunk(digits: string, n: nat, below: seq<Word>)
    requires digits != "" && n == BitmapTaskset.FirstChunk(|digits|) && Tells(below, digits[n..])
    ensures Tells(below + [ToWord(DigitBits(digits[..n]))], digits)
  {
    hide ToWord, TextBit, DigitBits;
    var top := ToWord(DigitBits(digits[..n]));
    var words := below + [top];
    RestIsWhole(|digits|);
    forall w: nat, k: nat | w < |words| && k < BITS
      ensures RightDigit(words, digits, w, k)
    {
      SplitDigits(digits, n, 64 * w + k);
      if w < |below| {
        assert RightDigit(below, digits[n..], w, k) && words[w] == below[w];
      } else {
        ShortWord(digits[..n], k);
      }
    }
  }

  lemma RestIsWhole(length: nat)
    requires length > 0
    ensures
      var n := BitmapTaskset.FirstChunk(length);
      length - n == 16 * WordsFor(length - n) && WordsFor(length) == WordsFor(length - n) + 1
  {
  }

  lemma SplitDigits(digits: string, n: nat, i: nat)
    requires n <= |digits|
    ensures
      var low := 4 * (|digits| - n);
      TextBit(digits, i) <==> if i < low then TextBit(digits[n..], i) else TextBit(digits[..n], i - low)
  {
    hide DigitBit;
    var low := 4 * (|digits| - n);
    if i >= low {
      assert (i - low) / 4 == i / 4 - (|digits| - n) && (i - low) % 4 == i % 4;
    }
  }

  lemma ShortWord(chunk: string, k: nat)
    requires |chunk| <= 16 && k < BITS
    ensures ToWord(DigitBits(chunk))[k] <==> TextBit(chunk, k)
  {
    hide TextBit, ToWord, DigitBits;
    WordMeans(chunk, k);
    forall i: nat | i >= BITS
      ensures !TextBit(chunk, i)
    {
      ShortText(chunk, i);
    }
  }

  datatype Start = Plain | Prefixed | Infinite

  function TextOf(start: Start, digits: string): string {
    (match start
      case Plain => ""
      case Prefixed => "0x"
      case Infinite => "0xf...f") + digits
  }

  /** Member `i` is bit `i % 4` of digit `i / 4` from the right; past the words of the digits there is
      nothing, or everything after `0xf...f`. */
  lemma TasksetMeans(start: Start, digits: string, i: nat)
    requires AllHex(digits)
    ensures
      var (parsed, goesOn) := BitmapTaskset.Parse(TextOf(start, digits));
      && parsed.Done? && goesOn == start.Infinite?
      && (Member(Bits(parsed.words, goesOn), i)
          <==> if i < 64 * WordsFor(|digits|) then TextBit(digits, i) else start.Infinite?)
  {
    hide IsHex, TextBit, BitmapTaskset.ParseChunks, Tells;
    TextStart(start, digits);
    ChunksMean(digits);
    if digits != "" {
      WordsMember(BitmapTaskset.ParseChunks(digits).words, digits, start.Infinite?, i);
    }
  }

  lemma WordsMember(words: seq<Word>, digits: string, infinite: bool, i: nat)
    requires Tells(words, digits)
    ensures Member(Bits(words, infinite), i) <==> if i < 64 * WordsFor(|digits|) then TextBit(digits, i) else infinite
  {
    hide TextBit;
    var w, k := i / BITS, i % BITS;
    assert i == 64 * w + k;
    if w < |words| {
      assert RightDigit(words, digits, w, k);
    }
  }

  /** Digits look neither like a prefix nor like `0xf...f`. */
  lemma TextStart(start: Start, digits: string)
    requires AllHex(digits)
    ensures BitmapTaskset.Parse(TextOf(start, digits)) == (
      if digits != "" then BitmapTaskset.ParseChunks(digits)
      else if start.Infinite? then BitmapTaskset.Done([FULL])
      else BitmapTaskset.Done([ZERO]), start.Infinite?)
  {
    hide IsHex, BitmapTaskset.ParseChunks, Repeat;
    var text := TextOf(start, digits);
    NotHexX('x');
    NotHexX('.');
    match start
    case Infinite =>
      assert text[..7] == INFINITE && text[7..] == digits;
    case Prefixed =>
      assert text[..2] == BitmapTaskset.PREFIX && text[2..] == digits;
      NotInfinite(text);
    case Plain =>
      assert text == digits;
      NotInfinite(text);
      NotPrefixed(text);
  }

  lemma NotInfinite(text: string)
    requires |text| > 3 ==> text[3] != '.'
    ensures !BitmapTaskset.StartsWith(text, INFINITE)
  {
    if |text| >= 7 {
      assert text[..7][3] == text[3] && INFINITE[3] == '.';
    }
  }

  lemma NotPrefixed(text: string)
    requires |text| > 1 ==> text[1] != 'x'
    ensures !BitmapTaskset.StartsWith(text, "0x")
  {
    if |text| >= 2 {
      assert text[..2][1] == text[1];
    }
  }

  // ---- Nothing else is read ----

  ghost predicate MayBeRead(text: string) {
    forall k :: 0 <= k < |text| ==> IsHex(text[k]) || text[k] in "xX"
  }

  lemma {:induction false} ChunksRead(text: string)
    requires BitmapTaskset.ParseChunks(text).Done?
    ensures MayBeRead(text)
    decreases |text|
  {
    hide IsHex, Strtoul16, ToWord, BitmapTaskset.FirstChunk;
    if text != "" {
      var n := BitmapTaskset.FirstChunk(|text|);
      var g := NumberRead(text[..n]);
      assert text[..n] == g.prefix + g.digits + "";
      assert MayBeRead(text[..n]) by { PrefixMayBeRead(g); }
      ChunksRead(text[n..]);
      assert text == text[..n] + text[n..];
    }
  }

  lemma PrefixMayBeRead(g: Group)
    requires Written(g)
    ensures MayBeRead(g.prefix + g.digits + "")
  {
    hide IsHex;
    assert IsDigitOf('0', 0);
    assert IsHex('0') by { DigitMeans('0'); }
  }

  /** Whatever is read has only digits and the marks of prefixes, after `0xf...f` if it starts so. */
  lemma OnlyDigitsAreRead(text: string)
    requires BitmapTaskset.Parse(text).0.Done?
    ensures MayBeRead(text) || (|text| >= 7 && text[..7] == "0xf...f" && MayBeRead(text[7..]))
  {
    hide IsHex, BitmapTaskset.ParseChunks, Repeat;
    if BitmapTaskset.StartsWith(text, INFINITE) {
      if |text| > 7 {
        ChunksRead(text[7..]);
      }
    } else if BitmapTaskset.StartsWith(text, "0x") {
      assert IsDigitOf('0', 0);
      assert IsHex('0') by { DigitMeans('0'); }
      assert text == text[..2] + text[2..];
      if |text| > 2 {
        ChunksRead(text[2..]);
      }
    } else if text != "" {
      ChunksRead(text);
    }
  }
}
