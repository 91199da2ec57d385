/** Decimal numbers as text, and `strtoul` in base 0. Blanks and signs are not modelled. */
module DecimalText {
  import opened HexText

  function DigitOf(n: nat): string {
    ["0123456789"[n % 10]]
  }

  function Decimal(n: nat): (text: string)
    ensures |text| >= 1
  {
    (if n < 10 then "" else Decimal(n / 10)) + DigitOf(n)
  }

  predicate IsDigit(c: char, base: nat) {
    0 <= DigitValue(c) < base
  }

  /** The digits at the start of a text, after those that make `acc`. */
  function ReadNumber(text: string, base: nat, acc: nat): (r: (nat, string))
    ensures |r.1| <= |text|
    decreases |text|
  {
    if text != "" && IsDigit(text[0], base) then ReadNumber(text[1..], base, Shifted(acc, base, DigitValue(text[0])))
    else (acc, text)
  }

  function Shifted(acc: nat, base: nat, digit: nat): nat {
    if base == 10 then acc * 10 + digit else if base == 16 then acc * 16 + digit else acc * 8 + digit
  }

  /** `strtoul(text, &rest, 0)`: the prefix says in which base. */
  function Strtoul0(text: string): (r: (nat, string))
    ensures |r.1| <= |text|
  {
    if |text| >= 3 && text[0] == '0' && text[1] in "xX" && IsDigit(text[2], 16) then ReadNumber(text[2..], 16, 0)
    else if text != "" && text[0] == '0' then ReadNumber(text, 8, 0)
    else ReadNumber(text, 10, 0)
  }

  lemma DecimalDigit(d: nat)
    requires d < 10
    ensures DigitValue("0123456789"[d]) == d
  {
  }

  lemma ReadOne(n: nat, rest: string, acc: nat)
    ensures ReadNumber(DigitOf(n) + rest, 10, acc) == ReadNumber(rest, 10, acc * 10 + n % 10)
  {
    DecimalDigit(n % 10);
    assert (DigitOf(n) + rest)[1..] == rest;
  }

  lemma {:induction false} ReadDecimal(n: nat, rest: string)
    ensures ReadNumber(Decimal(n) + rest, 10, 0) == ReadNumber(rest, 10, n)
  {
    hide ReadNumber, DigitOf;
    ReadOne(n, rest, n / 10);
    if n < 10 {
      assert Decimal(n) + rest == DigitOf(n) + rest;
    } else {
      ReadDecimal(n / 10, DigitOf(n) + rest);
      assert Decimal(n) + rest == Decimal(n / 10) + (DigitOf(n) + rest);
    }
  }

  lemma {:induction false} FirstOfDecimal(n: nat)
    ensures n > 0 ==> Decimal(n)[0] != '0'
    ensures IsDigit(Decimal(n)[0], 10)
  {
    DecimalDigit(n % 10);
    if n >= 10 {
      FirstOfDecimal(n / 10);
    }
  }

  /** No digit, and no letter that could make a prefix, follows. */
  predicate EndsNumber(rest: string) {
    rest == "" || rest[0] in ",-"
  }

  lemma DecimalRead(n: nat, rest: string)
    requires EndsNumber(rest)
    ensures Strtoul0(Decimal(n) + rest) == (n, rest)
  {
    hide Decimal, ReadNumber, DigitValue;
    var text := Decimal(n) + rest;
    FirstOfDecimal(n);
    ReadStops(rest, n);
    if n == 0 {
      ZeroText();
      assert text == "0" + rest;
      ReadZero(rest);
    } else {
      ReadDecimal(n, rest);
      assert text[0] == Decimal(n)[0];
    }
  }

  lemma ReadStops(rest: string, n: nat)
    requires EndsNumber(rest)
    ensures ReadNumber(rest, 10, n) == (n, rest) && ReadNumber(rest, 8, n) == (n, rest)
  {
  }

  lemma ReadZero(rest: string)
    requires EndsNumber(rest)
    ensures ReadNumber("0" + rest, 8, 0) == (0, rest)
  {
    assert ("0" + rest)[1..] == rest;
  }

  lemma ZeroText()
    ensures Decimal(0) == "0"
  {
  }
}
