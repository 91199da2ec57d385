/** The taskset form of bitmaps (src/cpuset.c): one hexadecimal number as long as the bitmap, after
    `0xf...f` when it is infinite. */
module BitmapTaskset {
  import opened Bitmap
  import opened Collections
  import opened HexText
  import opened TextBuffer

  const DIGITS: nat := 16
  const PREFIX := "0x"

  // ---- The text of a bitmap ----

  /** What `%lx` prints instead of `%016lx`. */
  function Minimal(digits: string): string {
    if |digits| > 1 && digits[0] == '0' then Minimal(digits[1..]) else digits
  }

  ghost function Words(words: seq<Word>, n: nat): (text: string)
    requires n <= |words|
  {
    if n == 0 then "" else HexDigits(words[n - 1]) + Words(words, n - 1)
  }

  /** What is left to print when `n` words are, and whether a number has been started. */
  ghost function Rest(words: seq<Word>, n: nat, started: bool): string
    requires n <= |words|
  {
    if started then Words(words, n)
    else if n == 0 then ""
    else if words[n - 1] != ZERO || n == 1 then PREFIX + Minimal(HexDigits(words[n - 1])) + Words(words, n - 1)
    else Rest(words, n - 1, false)
  }

  ghost function Text(b: Bits): string {
    if !b.infinite then Rest(b.words, |b.words|, false)
    else if b.words == [FULL] then INFINITE
    else INFINITE + Words(b.words, |b.words|)
  }

  // ---- Printing ----

  function Piece(w: Word, last: bool, started: bool): string {
    if started then HexDigits(w) else if w != ZERO || last then PREFIX + Minimal(HexDigits(w)) else ""
  }

  lemma PieceIsNext(words: seq<Word>, n: nat, started: bool)
    requires 0 < n <= |words|
    ensures
      var w := words[n - 1];
      Rest(words, n, started) == Piece(w, n == 1, started) + Rest(words, n - 1, started || w != ZERO || n == 1)
  {
    hide HexDigits, Minimal, Repeat;
  }

  /** `hwloc_bitmap_taskset_snprintf`. */
  method TasksetSnprintf(s: Bitmap, out: Output)
    requires s.Valid() && out.Valid()
    modifies out, out.buffer
    ensures out.Valid() && out.text == old(out.text) + Text(old(s.Value()))
  {
    hide Rest, Words, Piece, Repeat;
    ghost var b := s.Value();
    ghost var all := old(out.text) + Text(b);
    var started := false;
    if s.infinite {
      out.Put(INFINITE);
      started := true;
      if s.count == 1 && s.ulongs[0] == FULL {
        return;
      }
      Started(b.words, old(out.text));
    }
    var i := s.count - 1;
    while i >= 0
      invariant -1 <= i < s.count && s.Valid() && s.Value() == b && out.Valid()
      invariant out.text + Rest(b.words, i + 1, started) == all
    {
      var val := s.ulongs[i];
      assert val == b.words[i];
      PieceIsNext(b.words, i + 1, started);
      i := i - 1;
      Regroup(out.text, Piece(val, i == -1, started), Rest(b.words, i + 1, started || val != ZERO || i == -1));
      out.Put(Piece(val, i == -1, started));
      started := started || val != ZERO || i == -1;
    }
    NothingLeft(b.words, started);
  }

  lemma Started(words: seq<Word>, before: string)
    ensures before + (INFINITE + Words(words, |words|)) == (before + INFINITE) + Rest(words, |words|, true)
  {
  }

  lemma NothingLeft(words: seq<Word>, started: bool)
    ensures Rest(words, 0, started) == ""
  {
  }

  // ---- Parsing ----

  datatype Parsed = Done(words: seq<Word>) | Failed

  function FirstChunk(length: nat): (n: nat)
    requires length > 0
    ensures 0 < n <= length && n <= DIGITS
  {
    if length % DIGITS == 0 then DIGITS else length % DIGITS
  }

  /** Chunks of 16 digits, of which the first may be shorter; the words, lowest first. */
  function ParseChunks(text: string): Parsed
    decreases |text|
  {
    if text == "" then Done([]) else
    var n := FirstChunk(|text|);
    var (val, next) := Strtoul16(text[..n]);
    if next != "" then Failed else Above(ParseChunks(text[n..]), [ToWord(val)])
  }

  function Above(p: Parsed, high: seq<Word>): Parsed {
    if p.Done? then Done(p.words + high) else p
  }

  predicate StartsWith(text: string, start: string) {
    |text| >= |start| && text[..|start|] == start
  }

  /** What `hwloc_bitmap_taskset_sscanf` makes of a text: the words and whether they go on. */
  function Parse(text: string): (Parsed, bool) {
    if StartsWith(text, INFINITE) then
      (if |text| == |INFINITE| then (Done([FULL]), true) else (ParseChunks(text[|INFINITE|..]), true))
    else
      var digits := if StartsWith(text, PREFIX) then text[|PREFIX|..] else text;
      if digits == "" then (Done([ZERO]), false) else (ParseChunks(digits), false)
  }

  /** `hwloc_bitmap_taskset_sscanf`. */
  method TasksetSscanf(s: Bitmap, text: string) returns (ok: bool)
    requires s.Valid()
    modifies s, s.ulongs
    ensures s.Valid() && (s.ulongs == old(s.ulongs) || fresh(s.ulongs))
    ensures ok <==> Parse(text).0.Done?
    ensures Set(s.Value()) == if ok then Set(Bits(Parse(text).0.words, Parse(text).1)) else iset{}
  {
    hide ParseChunks, Set, Repeat;
    var current := text;
    var infinite := false;
    if StartsWith(text, INFINITE) {
      infinite := true;
      current := current[|INFINITE|..];
      if current == "" {
        s.Fill();
        AllSet(s.Value());
        return true;
      }
    } else {
      if StartsWith(text, PREFIX) {
        current := current[|PREFIX|..];
      }
      if current == "" {
        s.Zero();
        NoneSet();
        return true;
      }
    }
    var chars := |current|;
    s.Reset((chars * 4 + BITS - 1) / BITS);
    s.infinite := false;
    ok := ReadChunks(s, current);
    if !ok {
      s.Zero();
      return;
    }
    s.infinite := infinite;
  }

  lemma NoneSet()
    ensures Set(Bits([ZERO], false)) == iset{}
  {
  }

  /** The loop of the parser, which fills the words from the highest down. */
  method ReadChunks(s: Bitmap, text: string) returns (ok: bool)
    requires s.Valid() && s.count == (|text| * 4 + BITS - 1) / BITS
    modifies s.ulongs
    ensures ok <==> ParseChunks(text).Done?
    ensures ok ==> s.ulongs[..s.count] == ParseChunks(text).words
  {
    hide ParseChunks, Above, Strtoul16, ToWord, Repeat, FirstChunk, WordCount;
    CountStart(|text|);
    var current := text;
    var chars := |text|;
    var count := s.count;
    ParseStart(text);
    assert s.ulongs[s.count..s.count] == [];
    while current != ""
      invariant chars == |current| && count == WordCount(chars) && count <= s.count
      invariant ParseChunks(text) == Above(ParseChunks(current), s.ulongs[count..s.count])
      decreases |current|
    {
      var tmpchars := FirstChunk(chars);
      var (val, next) := Strtoul16(current[..tmpchars]);
      CountStep(chars);
      ParseStep(current, s.ulongs[count..s.count]);
      if next != "" {
        return false;
      }
      ghost var high := s.ulongs[count..s.count];
      s.ulongs[count - 1] := ToWord(val);
      assert s.ulongs[count - 1..s.count] == [ToWord(val)] + high;
      current := current[tmpchars..];
      chars := chars - tmpchars;
      count := count - 1;
    }
    ParseEnd(s.ulongs[..s.count]);
    return true;
  }

  /** How many words a number of digits takes. */
  function WordCount(chars: nat): nat {
    (chars + DIGITS - 1) / DIGITS
  }

  lemma CountStart(chars: nat)
    ensures (chars * 4 + BITS - 1) / BITS == WordCount(chars) && WordCount(0) == 0
  {
  }

  lemma CountStep(chars: nat)
    requires chars > 0
    ensures WordCount(chars) == WordCount(chars - FirstChunk(chars)) + 1
  {
    var n := FirstChunk(chars);
    assert chars == chars / DIGITS * DIGITS + chars % DIGITS;
    if chars % DIGITS == 0 {
      assert chars + DIGITS - 1 == (chars - n + DIGITS - 1) + DIGITS;
    } else {
      assert chars - n == chars / DIGITS * DIGITS;
    }
  }

  lemma ParseStart(text: string)
    ensures ParseChunks(text) == Above(ParseChunks(text), [])
  {
    hide ParseChunks;
  }

  lemma ParseEnd(words: seq<Word>)
    ensures Above(ParseChunks(""), words) == Done(words)
  {
  }

  lemma ParseStep(text: string, high: seq<Word>)
    requires text != ""
    ensures
      var n := FirstChunk(|text|);
      var (val, next) := Strtoul16(text[..n]);
      Above(ParseChunks(text), high)
      == if next != "" then Failed else Above(ParseChunks(text[n..]), [ToWord(val)] + high)
  {
    hide Strtoul16, ToWord;
    var n := FirstChunk(|text|);
    var word := ToWord(Strtoul16(text[..n]).0);
    var low := ParseChunks(text[n..]);
    if low.Done? {
      assert (low.words + [word]) + high == low.words + ([word] + high);
    }
  }

  // ---- The parser undoes the printer ----

  lemma LowestDigit(bits: seq<bool>)
    requires |bits| % 4 == 0 && |bits| >= 4
    ensures HexDigits(bits) == HexDigits(bits[4..]) + [HexDigit(bits[..4])]
    ensures |bits| == 4 ==> HexDigits(bits) == [HexDigit(bits)]
  {
    hide HexDigit;
    if |bits| == 4 {
      assert bits[4..] == [] && bits[..4] == bits;
    }
  }

  /** A digit less when the highest one is zero. */
  lemma {:induction false} HighestDigit(bits: seq<bool>)
    requires |bits| % 4 == 0 && |bits| >= 4
    ensures HexDigits(bits) == [HexDigit(bits[|bits| - 4..])] + HexDigits(bits[..|bits| - 4])
  {
    hide HexDigit, HexDigits;
    LowestDigit(bits);
    var rest := bits[..|bits| - 4];
    if |bits| == 4 {
      NoDigits();
      assert bits[0..] == bits && rest == [];
    } else {
      var high := bits[4..];
      HighestDigit(high);
      LowestDigit(rest);
      assert high[|high| - 4..] == bits[|bits| - 4..];
      assert rest[..4] == bits[..4] && rest[4..] == high[..|high| - 4];
    }
  }

  lemma NoDigits()
    ensures HexDigits([]) == ""
  {
  }

  lemma ZeroDigit(bits: seq<bool>)
    requires |bits| == 4 && HexDigit(bits) == '0'
    ensures forall k :: 0 <= k < 4 ==> !bits[k]
  {
    DigitRoundTrip(bits);
  }

  /** The digits that are printed are those of the lowest bits, and all others are clear. */
  lemma {:induction false} MinimalDigits(bits: seq<bool>) returns (n: nat)
    requires |bits| % 4 == 0 && |bits| >= 4
    ensures 4 <= n <= |bits| && n % 4 == 0
    ensures Minimal(HexDigits(bits)) == HexDigits(bits[..n])
    ensures forall k :: n <= k < |bits| ==> !bits[k]
  {
    hide HexDigit, HexDigits;
    var low := bits[..|bits| - 4];
    var digits := HexDigits(bits);
    HighestDigit(bits);
    if |digits| > 1 && digits[0] == '0' {
      ZeroDigit(bits[|bits| - 4..]);
      assert digits[1..] == HexDigits(low);
      n := MinimalDigits(low);
      assert low[..n] == bits[..n];
      forall k | n <= k < |bits|
        ensures !bits[k]
      {
        assert k >= |low| ==> !bits[|bits| - 4..][k - |low|];
        assert k < |low| ==> bits[k] == low[k];
      }
    } else {
      n := |bits|;
      assert bits[..n] == bits;
    }
  }

  lemma ReadWord(bits: seq<bool>)
    requires |bits| % 4 == 0 && bits != []
    ensures Strtoul16(HexDigits(bits)) == (bits, "")
  {
    hide HexDigits, ReadDigits, DigitValue;
    var text := HexDigits(bits);
    DigitsHaveNoComma(bits);
    DigitsRoundTrip(bits, "", []);
    StopsReading("", bits + []);
    assert text + "" == text && bits + [] == bits;
    if |text| >= 2 {
      assert text[1] !in ",x";
      UpperX();
      assert text[1] != 'X';
    }
  }

  lemma UpperX()
    ensures DigitValue('X') < 0
  {
  }

  lemma PaddedWord(w: Word, n: nat)
    requires n <= BITS && forall k :: n <= k < BITS ==> !w[k]
    ensures ToWord(w[..n]) == w
  {
  }

  lemma {:induction false} WordsLength(words: seq<Word>, n: nat)
    requires n <= |words|
    ensures |Words(words, n)| == n * DIGITS
  {
    if n > 0 {
      WordsLength(words, n - 1);
    }
  }

  /** A chunk of digits followed by whole words. */
  lemma ReadChunk(digits: string, words: seq<Word>, n: nat)
    requires n <= |words| && 0 < |digits| <= DIGITS
    ensures
      var text := digits + Words(words, n);
      text != "" && FirstChunk(|text|) == |digits| && text[..|digits|] == digits && text[|digits|..] == Words(words, n)
  {
    hide Words;
    WordsLength(words, n);
    ChunkLength(|digits|, n);
  }

  lemma ChunkLength(m: nat, n: nat)
    requires 0 < m <= DIGITS
    ensures FirstChunk(m + n * DIGITS) == m
  {
    var length := m + n * DIGITS;
    if m == DIGITS {
      assert length == (n + 1) * DIGITS;
    } else {
      assert length / DIGITS == n;
    }
  }

  /** A chunk that is all digits, then whole words. */
  lemma ParseChunk(digits: string, bits: seq<bool>, words: seq<Word>, n: nat)
    requires n <= |words| && 0 < |digits| <= DIGITS && Strtoul16(digits) == (bits, "")
    ensures ParseChunks(digits + Words(words, n)) == Above(ParseChunks(Words(words, n)), [ToWord(bits)])
  {
    hide Strtoul16, ToWord, Words, FirstChunk, Above;
    ReadChunk(digits, words, n);
  }

  lemma {:induction false} WordsRoundTrip(words: seq<Word>, n: nat)
    requires n <= |words|
    ensures ParseChunks(Words(words, n)) == Done(words[..n])
  {
    hide Strtoul16, ToWord, HexDigits, FirstChunk;
    if n > 0 {
      var w := words[n - 1];
      ReadWord(w);
      ParseChunk(HexDigits(w), w, words, n - 1);
      PaddedWord(w, BITS);
      assert w[..BITS] == w;
      WordsRoundTrip(words, n - 1);
      assert words[..n - 1] + [w] == words[..n];
    }
  }

  /** The highest word that is printed. */
  ghost function Top(words: seq<Word>, n: nat): (t: nat)
    requires 0 < n <= |words|
    ensures 0 < t <= n && forall k :: t <= k < n ==> words[k] == ZERO
  {
    if words[n - 1] != ZERO || n == 1 then n else Top(words, n - 1)
  }

  lemma {:induction false} TopIsFirst(words: seq<Word>, n: nat)
    requires 0 < n <= |words|
    ensures
      var t := Top(words, n);
      Rest(words, n, false) == PREFIX + Minimal(HexDigits(words[t - 1])) + Words(words, t - 1)
  {
    hide HexDigits, Minimal, Words, Repeat;
    if !(words[n - 1] != ZERO || n == 1) {
      TopIsFirst(words, n - 1);
    }
  }

  lemma NumberRoundTrip(words: seq<Word>, t: nat)
    requires 0 < t <= |words|
    ensures ParseChunks(Minimal(HexDigits(words[t - 1])) + Words(words, t - 1)) == Done(words[..t])
  {
    hide Strtoul16, ToWord, HexDigits, Minimal, Words, Repeat, ParseChunks;
    var w := words[t - 1];
    var n := MinimalDigits(w);
    ReadWord(w[..n]);
    ParseChunk(HexDigits(w[..n]), w[..n], words, t - 1);
    PaddedWord(w, n);
    WordsRoundTrip(words, t - 1);
    assert words[..t - 1] + [w] == words[..t];
  }

  /** A number starts with a digit and then has digits only. */
  lemma NotInfinite(words: seq<Word>, t: nat)
    requires 0 < t <= |words|
    ensures !StartsWith(PREFIX + Minimal(HexDigits(words[t - 1])) + Words(words, t - 1), INFINITE)
  {
    hide HexDigits, Minimal, DigitValue, Words;
    var n := MinimalDigits(words[t - 1]);
    var digits := HexDigits(words[t - 1][..n]);
    var text := PREFIX + digits + Words(words, t - 1);
    DigitsHaveNoComma(words[t - 1][..n]);
    WordsStart(words, t - 1);
    Dot();
    if |text| > 3 {
      assert text[3] == if |digits| > 1 then digits[1] else Words(words, t - 1)[0];
      assert INFINITE[3] == '.';
    }
  }

  lemma Dot()
    ensures DigitValue('.') < 0
  {
  }

  lemma WordsStart(words: seq<Word>, n: nat)
    requires n <= |words|
    ensures Words(words, n) != "" ==> DigitValue(Words(words, n)[0]) >= 0
  {
    hide DigitValue, HexDigits;
    if n > 0 {
      DigitsHaveNoComma(words[n - 1]);
      FirstDigit(words[n - 1]);
    }
  }

  lemma SameSet(b: Bits, t: nat)
    requires t <= |b.words| && !b.infinite && forall k :: t <= k < |b.words| ==> b.words[k] == ZERO
    ensures Set(Bits(b.words[..t], false)) == Set(b)
  {
  }

  lemma FiniteParse(words: seq<Word>, t: nat)
    requires 0 < t <= |words|
    ensures Parse(PREFIX + Minimal(HexDigits(words[t - 1])) + Words(words, t - 1)) == (Done(words[..t]), false)
  {
    hide HexDigits, Minimal, Words, ParseChunks;
    var number := Minimal(HexDigits(words[t - 1])) + Words(words, t - 1);
    var text := PREFIX + Minimal(HexDigits(words[t - 1])) + Words(words, t - 1);
    assert text[..2] == PREFIX && text[2..] == number;
    NotInfinite(words, t);
    NumberRoundTrip(words, t);
    SomeDigit(words[t - 1]);
  }

  lemma SomeDigit(w: Word)
    ensures Minimal(HexDigits(w)) != ""
  {
    hide HexDigits, Minimal;
    var n := MinimalDigits(w);
  }

  lemma InfiniteParse(words: seq<Word>)
    requires words != []
    ensures Parse(INFINITE + Words(words, |words|)) == (Done(words), true)
  {
    hide Words, ParseChunks;
    var text := INFINITE + Words(words, |words|);
    assert text[..|INFINITE|] == INFINITE && text[|INFINITE|..] == Words(words, |words|);
    WordsLength(words, |words|);
    WordsRoundTrip(words, |words|);
    assert words[..|words|] == words;
  }

  /** Parsing what was printed gives the same set, finite or infinite. */
  lemma TasksetRoundTrip(b: Bits)
    requires |b.words| >= 1
    ensures Parse(Text(b)).0.Done?
    ensures Set(Bits(Parse(Text(b)).0.words, Parse(Text(b)).1)) == Set(b)
  {
    hide Parse, Rest, Words, Minimal, HexDigits, Set, Repeat;
    var n := |b.words|;
    if !b.infinite {
      var t := Top(b.words, n);
      TopIsFirst(b.words, n);
      FiniteParse(b.words, t);
      SameSet(b, t);
    } else if b.words == [FULL] {
      FullParse();
    } else {
      InfiniteParse(b.words);
    }
  }

  lemma FullParse()
    ensures Parse(INFINITE) == (Done([FULL]), true)
  {
    hide ParseChunks, Repeat;
    assert INFINITE[..|INFINITE|] == INFINITE;
  }
}
