/** What hexadecimal digits mean, told from a table of the digits in both cases. */
module DigitMeaning {
  import opened Bitmap
  import opened Collections
  import opened HexText

  const LOWER_CASE := "0123456789abcdef"
  const UPPER_CASE := "0123456789ABCDEF"

  /** The digit with value `v`, in either case. */
  predicate IsDigitOf(c: char, v: nat) {
    v < 16 && (c == LOWER_CASE[v] || c == UPPER_CASE[v])
  }

  ghost predicate IsHex(c: char) {
    exists v: nat :: IsDigitOf(c, v)
  }

  ghost predicate AllHex(digits: string) {
    forall k :: 0 <= k < |digits| ==> IsHex(digits[k])
  }

  /** Bit `k` of a number below 16. */
  predicate BitOf(v: nat, k: nat) {
    match k
    case 0 => v % 2 == 1
    case 1 => v / 2 % 2 == 1
    case 2 => v / 4 % 2 == 1
    case 3 => v / 8 % 2 == 1
    case _ => false
  }

  ghost predicate DigitBit(c: char, k: nat) {
    exists v: nat :: IsDigitOf(c, v) && BitOf(v, k)
  }

  /** Bit `i` of a number is bit `i % 4` of digit `i / 4` from the right. */
  ghost predicate TextBit(digits: string, i: nat) {
    i / 4 < |digits| && DigitBit(digits[|digits| - 1 - i / 4], i % 4)
  }

  lemma DigitOfValue(c: char)
    ensures DigitValue(c) >= 0 ==> IsDigitOf(c, DigitValue(c))
  {
    var v := DigitValue(c);
    if '0' <= c <= '9' {
      TenDigits(c);
    } else if 'a' <= c <= 'f' {
      SixDigits(c as int - 'a' as int);
    } else if 'A' <= c <= 'F' {
      SixDigits(c as int - 'A' as int);
    }
  }

  lemma TenDigits(c: char)
    requires '0' <= c <= '9'
    ensures LOWER_CASE[c as int - '0' as int] == c
  {
    var v := c as int - '0' as int;
    if v == 0 {} else if v == 1 {} else if v == 2 {} else if v == 3 {} else if v == 4 {}
    else if v == 5 {} else if v == 6 {} else if v == 7 {} else if v == 8 {} else {}
  }

  lemma SixDigits(v: nat)
    requires v < 6
    ensures LOWER_CASE[v + 10] == ('a' as int + v) as char && UPPER_CASE[v + 10] == ('A' as int + v) as char
  {
    if v == 0 {} else if v == 1 {} else if v == 2 {} else if v == 3 {} else if v == 4 {} else {}
  }

  lemma ValueOfDigit(c: char, v: nat)
    requires IsDigitOf(c, v)
    ensures DigitValue(c) == v
  {
    if v == 0 {} else if v == 1 {} else if v == 2 {} else if v == 3 {} else if v == 4 {}
    else if v == 5 {} else if v == 6 {} else if v == 7 {} else if v == 8 {} else if v == 9 {}
    else if v == 10 {} else if v == 11 {} else if v == 12 {} else if v == 13 {} else if v == 14 {} else {}
  }

  /** What the conversion takes for a digit, and the bits that it makes of it. */
  lemma DigitMeans(c: char)
    ensures IsHex(c) <==> DigitValue(c) >= 0
    ensures IsHex(c) ==> forall k: nat :: k < 4 ==> (Nibble(DigitValue(c))[k] <==> DigitBit(c, k))
  {
    hide IsDigitOf, DigitValue;
    DigitOfValue(c);
    forall v: nat | IsDigitOf(c, v)
      ensures DigitValue(c) == v
    {
      ValueOfDigit(c, v);
    }
    if IsHex(c) {
      NibbleBits(DigitValue(c));
    }
  }

  lemma NibbleBits(v: nat)
    requires v < 16
    ensures forall k: nat :: k < 4 ==> (Nibble(v)[k] <==> BitOf(v, k))
  {
    assert v / 8 == 1 <==> v / 8 % 2 == 1;
  }

  ghost function DigitBits(digits: string): (bits: seq<bool>)
    ensures |bits| == 4 * |digits| && forall i :: 0 <= i < |bits| ==> bits[i] == TextBit(digits, i)
  {
    seq(4 * |digits|, i requires 0 <= i => TextBit(digits, i))
  }

  lemma FirstDigitBits(digits: string)
    requires digits != "" && IsHex(digits[0])
    ensures DigitBits(digits) == DigitBits(digits[1..]) + Nibble(DigitValue(digits[0]))
  {
    hide IsHex, DigitBit;
    DigitMeans(digits[0]);
    var low, top := DigitBits(digits[1..]), Nibble(DigitValue(digits[0]));
    forall i | 0 <= i < 4 * |digits|
      ensures TextBit(digits, i) == (low + top)[i]
    {
      if i < 4 * (|digits| - 1) {
        assert digits[|digits| - 1 - i / 4] == digits[1..][|digits| - 2 - i / 4];
      } else {
        assert i / 4 == |digits| - 1 && i % 4 == i - |low|;
      }
    }
  }

  lemma {:induction false} ReadMeans(digits: string, rest: string, acc: seq<bool>)
    requires AllHex(digits) && (rest == "" || !IsHex(rest[0]))
    ensures ReadDigits(digits + rest, acc) == (DigitBits(digits) + acc, rest)
  {
    hide IsHex, DigitValue, DigitBits;
    if digits == "" {
      assert digits + rest == rest;
      if rest != "" {
        DigitMeans(rest[0]);
      }
      NoBits(acc);
    } else {
      DigitMeans(digits[0]);
      assert (digits + rest)[1..] == digits[1..] + rest;
      ReadMeans(digits[1..], rest, Nibble(DigitValue(digits[0])) + acc);
      FirstDigitBits(digits);
      Regroup(DigitBits(digits[1..]), Nibble(DigitValue(digits[0])), acc);
    }
  }

  lemma NoBits(acc: seq<bool>)
    ensures DigitBits("") + acc == acc
  {
  }

  predicate IsPrefix(prefix: string) {
    prefix == "" || prefix == "0x" || prefix == "0X"
  }

  lemma NotHexX(c: char)
    requires c == 'x' || c == 'X' || c == ',' || c == '.'
    ensures !IsHex(c)
  {
    DigitMeans(c);
  }

  /** A number with or without a prefix, up to the end or a comma. */
  lemma NumberMeans(prefix: string, digits: string, rest: string)
    requires IsPrefix(prefix) && AllHex(digits) && (rest == "" || rest[0] == ',') && (prefix != "" ==> digits != "")
    ensures Strtoul16(prefix + digits + rest) == (DigitBits(digits), rest)
  {
    hide IsHex, DigitValue, DigitBits, ReadDigits;
    var text := prefix + digits + rest;
    if rest != "" {
      NotHexX(rest[0]);
    }
    NotHexX('x');
    NotHexX('X');
    ReadMeans(digits, rest, []);
    assert DigitBits(digits) + [] == DigitBits(digits);
    if prefix == "" {
      assert text == digits + rest;
      if |text| >= 2 && text[1] in "xX" {
        assert text[1] == 'x' || text[1] == 'X';
        assert |digits| < 2;
      }
    } else {
      DigitMeans(digits[0]);
      assert text[2..] == digits + rest && text[0] == '0' && text[2] == digits[0];
    }
  }
}
