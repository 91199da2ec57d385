/** Hexadecimal numbers as text: what `printf` and `strtoul` do with them, except that the blanks and
    signs that `strtoul` skips before the digits are not modelled. Numbers are kept bit by
    bit, lowest first. */
module HexText {
  import opened Bitmap

  /** How an infinite bitmap starts. */
  const INFINITE := "0xf...f"

  function HexDigit(bits: seq<bool>): char
    requires |bits| == 4
  {
    var v := (if bits[0] then 1 else 0) + (if bits[1] then 2 else 0) + (if bits[2] then 4 else 0)
        + (if bits[3] then 8 else 0);
    "0123456789abcdef"[v]
  }

  /** The value of a hexadecimal digit in either case, or -1. */
  function DigitValue(c: char): (v: int)
    ensures -1 <= v < 16
  {
    if '0' <= c <= '9' then c as int - '0' as int
    else if 'a' <= c <= 'f' then c as int - 'a' as int + 10
    else if 'A' <= c <= 'F' then c as int - 'A' as int + 10
    else -1
  }

  function Nibble(v: int): (bits: seq<bool>)
    requires 0 <= v < 16
    ensures |bits| == 4
  {
    [v % 2 == 1, v / 2 % 2 == 1, v / 4 % 2 == 1, v / 8 == 1]
  }

  lemma DigitRoundTrip(bits: seq<bool>)
    requires |bits| == 4
    ensures DigitValue(HexDigit(bits)) >= 0 && Nibble(DigitValue(HexDigit(bits))) == bits
    ensures HexDigit(bits) !in ",x"
  {
    var a, b, c, d := bits[0], bits[1], bits[2], bits[3];
    assert bits == [a, b, c, d];
    if a { if b { if c { if d {} else {} } else { if d {} else {} } }
        else { if c { if d {} else {} } else { if d {} else {} } } }
    else { if b { if c { if d {} else {} } else { if d {} else {} } }
        else { if c { if d {} else {} } else { if d {} else {} } } }
  }

  /** All digits of a number, leading zeros included. */
  function HexDigits(bits: seq<bool>): (text: string)
    requires |bits| % 4 == 0
    ensures |text| == |bits| / 4
  {
    if bits == [] then "" else HexDigits(bits[4..]) + [HexDigit(bits[..4])]
  }

  /** The digits at the start of a text, after those that make `acc`. */
  function ReadDigits(text: string, acc: seq<bool>): (r: (seq<bool>, string))
    ensures |r.1| <= |text|
  {
    if text != "" && DigitValue(text[0]) >= 0 then ReadDigits(text[1..], Nibble(DigitValue(text[0])) + acc)
    else (acc, text)
  }

  /** `strtoul(text, &rest, 16)`: the number at the start of the text and what follows it. */
  function Strtoul16(text: string): (r: (seq<bool>, string))
    ensures |r.1| <= |text|
  {
    if |text| >= 3 && text[0] == '0' && text[1] in "xX" && DigitValue(text[2]) >= 0 then ReadDigits(text[2..], [])
    else ReadDigits(text, [])
  }

  /** An `unsigned long`: too large a number becomes the largest one. */
  function ToWord(bits: seq<bool>): Word {
    if exists k :: BITS <= k < |bits| && bits[k] then FULL
    else seq(BITS, k requires 0 <= k => k < |bits| && bits[k])
  }

  function ShiftLeft(w: Word, n: nat): Word {
    seq(BITS, k requires 0 <= k < BITS => k >= n && w[k - n])
  }

  lemma {:induction false} DigitsRoundTrip(bits: seq<bool>, rest: string, acc: seq<bool>)
    requires |bits| % 4 == 0
    ensures ReadDigits(HexDigits(bits) + rest, acc) == ReadDigits(rest, bits + acc)
  {
    if bits == [] {
      assert HexDigits(bits) + rest == rest && bits + acc == acc;
    } else {
      var low, high, d := bits[..4], bits[4..], HexDigit(bits[..4]);
      DigitsRoundTrip(high, [d] + rest, acc);
      assert HexDigits(bits) + rest == HexDigits(high) + ([d] + rest);
      DigitRoundTrip(low);
      assert ([d] + rest)[1..] == rest;
      assert low + (high + acc) == bits + acc;
    }
  }

  /** No digit follows. */
  predicate Stops(rest: string) {
    rest == "" || DigitValue(rest[0]) < 0
  }

  lemma StopsReading(rest: string, acc: seq<bool>)
    requires Stops(rest)
    ensures ReadDigits(rest, acc) == (acc, rest)
  {
  }

  lemma PrefixedRoundTrip(bits: seq<bool>, rest: string)
    requires |bits| % 4 == 0 && bits != [] && Stops(rest)
    ensures Strtoul16("0x" + HexDigits(bits) + rest) == (bits, rest)
  {
    hide ReadDigits, HexDigits, DigitValue;
    var text := "0x" + HexDigits(bits) + rest;
    FirstDigit(bits);
    DigitsRoundTrip(bits, rest, []);
    StopsReading(rest, bits + []);
    assert text[0] == '0' && text[1] == 'x' && text[2] == HexDigits(bits)[0];
    assert text[2..] == HexDigits(bits) + rest;
    assert bits + [] == bits;
  }

  lemma {:induction false} FirstDigit(bits: seq<bool>)
    requires |bits| % 4 == 0 && bits != []
    ensures |HexDigits(bits)| >= 1 && DigitValue(HexDigits(bits)[0]) >= 0
  {
    if |bits| == 4 {
      DigitRoundTrip(bits[..4]);
      assert HexDigits(bits[4..]) == "";
    } else {
      FirstDigit(bits[4..]);
    }
  }

  lemma {:induction false} DigitsHaveNoComma(bits: seq<bool>)
    requires |bits| % 4 == 0
    ensures forall k :: 0 <= k < |HexDigits(bits)| ==>
        HexDigits(bits)[k] !in ",x"
        && DigitValue(HexDigits(bits)[k]) >= 0
  {
    if bits != [] {
      DigitsHaveNoComma(bits[4..]);
      DigitRoundTrip(bits[..4]);
    }
  }
}
