// Decimal numerals.
module Decimals {
  import opened Wrappers
  import opened Text

  function DigitChar(d: nat): (c: char)
    requires d < 10
    ensures IsDigit(c)
  {
    ((('0' as int) + d) as char)
  }

  // `to_string` of a number.
  function Decimal(n: nat): (s: string)
    ensures s != ""
  {
    if n < 10 then [DigitChar(n)] else Decimal(n / 10) + [DigitChar(n % 10)]
  }

  function Value(s: string): nat
    requires AllIn(Digit, s)
  {
    if s == "" then 0 else Value(s[..|s| - 1]) * 10 + ((s[|s| - 1] as int) - ('0' as int))
  }

  lemma {:induction false} DecimalValue(n: nat)
    ensures AllIn(Digit, Decimal(n)) && Value(Decimal(n)) == n
  {
    var s := Decimal(n);
    if n < 10 {
      assert s[..0] == "";
    } else {
      DecimalValue(n / 10);
      assert s[..|s| - 1] == Decimal(n / 10);
    }
  }

  lemma DecimalInjective(m: nat, n: nat)
    requires Decimal(m) == Decimal(n)
    ensures m == n
  {
    DecimalValue(m);
    DecimalValue(n);
  }

  const MAX_I64: int := 0x7FFF_FFFF_FFFF_FFFF

  // `parse::<i64>()`: an optional sign, digits, and a value that fits.
  function ParseI64(s: string): Option<int> {
    var minus, plus := Strip(s, "-"), Strip(s, "+");
    var digits := if minus.Some? then minus.value else if plus.Some? then plus.value else s;
    if digits == "" || !AllIn(Digit, digits) then None
    else
      var v: int := Value(digits);
      var n := if minus.Some? then 0 - v else v;
      if -MAX_I64 - 1 <= n <= MAX_I64 then Some(n) else None
  }

  // A sign or none, and digits.
  ghost predicate IsSigned(s: string, sign: string, digits: string) {
    s == sign + digits && sign in {"", "+", "-"} && digits != "" && AllIn(Digit, digits)
  }

  lemma SignedDigits(s: string, sign: string, digits: string)
    requires IsSigned(s, sign, digits)
    ensures Strip(s, "-") == (if sign == "-" then Some(digits) else None)
    ensures Strip(s, "+") == (if sign == "+" then Some(digits) else None)
    ensures sign == "" ==> s == digits
  {
    assert Has(Digit, digits[0]);
    if sign == "" {
      assert s == digits;
    } else {
      StripOf(sign, digits);
    }
  }

  // The text is a numeral for the number.
  ghost predicate Denotes(s: string, sign: string, digits: string, n: int) {
    IsSigned(s, sign, digits) && n == if sign == "-" then 0 - Value(digits) else Value(digits)
  }

  // Exactly which texts are read, and as which number.
  lemma I64Exactly(s: string, n: int)
    ensures ParseI64(s) == Some(n) <==>
      -0x8000_0000_0000_0000 <= n <= 0x7FFF_FFFF_FFFF_FFFF && exists sign, digits :: Denotes(s, sign, digits, n)
  {
    hide Value;
    if ParseI64(s) == Some(n) {
      var minus, plus := Strip(s, "-"), Strip(s, "+");
      var sign := if minus.Some? then "-" else if plus.Some? then "+" else "";
      var digits := if minus.Some? then minus.value else if plus.Some? then plus.value else s;
      assert sign == "" ==> s == sign + digits;
      assert Denotes(s, sign, digits, n);
    }
    if -0x8000_0000_0000_0000 <= n <= 0x7FFF_FFFF_FFFF_FFFF {
      forall sign, digits | Denotes(s, sign, digits, n) ensures ParseI64(s) == Some(n) {
        SignedDigits(s, sign, digits);
      }
    }
  }

  // A printed number is read back when it fits the width, and only then.
  lemma PrintedI64(n: nat)
    ensures ParseI64(Decimal(n)) == if n <= MAX_I64 then Some(n) else None
    ensures ParseI64("-" + Decimal(n)) == if n <= MAX_I64 + 1 then Some(0 - (n as int)) else None
  {
    hide Decimal, Value;
    DecimalValue(n);
    var d := Decimal(n);
    assert Has(Digit, d[0]);
    StripOf("-", d);
  }
}
