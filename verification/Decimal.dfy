/** Decimal printing (`%ld`, `%lld`) and reading (`strtol`, `strtoll`). */
module Decimal {
  import opened CStrings

  predicate IsDigit(c: char) { '0' <= c <= '9' }

  function Digit(d: nat): (c: char)
    requires d < 10
    ensures IsDigit(c) && DigitValue(c) == d
  {
    ('0' as int + d) as char
  }

  function DigitValue(c: char): (d: nat)
    requires IsDigit(c)
    ensures d < 10
  {
    c as int - '0' as int
  }

  predicate AllDigits(s: string) {
    forall i :: 0 <= i < |s| ==> IsDigit(s[i])
  }

  /** The decimal text of a natural number, without leading zeros. */
  function Dec(n: nat): (s: string)
    ensures s != [] && AllDigits(s)
    ensures s[0] == '0' <==> n == 0
    ensures n == 0 ==> s == "0"
  {
    if n < 10 then [Digit(n)] else Dec(n / 10) + [Digit(n % 10)]
  }

  function PrintLong(v: int): (s: string)
    ensures s != []
  {
    if v < 0 then "-" + Dec(-v) else Dec(v)
  }

  /** The number a digit string denotes. */
  function NumberOf(s: string): nat
    requires AllDigits(s)
  {
    if s == [] then 0 else 10 * NumberOf(s[..|s| - 1]) + DigitValue(s[|s| - 1])
  }

  lemma {:induction false} NumberOfDec(n: nat)
    ensures NumberOf(Dec(n)) == n
  {
    if n >= 10 {
      NumberOfDec(n / 10);
      assert Dec(n)[..|Dec(n)| - 1] == Dec(n / 10);
    }
  }

  lemma DecStep(n: nat, d: nat)
    requires 0 < n && d < 10
    ensures Dec(10 * n + d) == Dec(n) + [Digit(d)]
  {
    assert (10 * n + d) / 10 == n && (10 * n + d) % 10 == d;
  }

  /** A digit string without a leading zero is what printing its number gives. */
  lemma {:induction false} DecNumberOf(s: string)
    requires s != [] && AllDigits(s)
    requires s[0] == '0' ==> |s| == 1
    ensures Dec(NumberOf(s)) == s
  {
    var init := s[..|s| - 1];
    if init == [] {
      assert NumberOf(init) == 0;
    } else {
      DecNumberOf(init);
      PositiveWhenNoLeadingZero(init);
      var n, d := NumberOf(init), DigitValue(s[|s| - 1]);
      DecStep(n, d);
      hide Dec, NumberOf;
      assert s == init + [s[|s| - 1]];
    }
  }

  lemma {:induction false} PositiveWhenNoLeadingZero(s: string)
    requires s != [] && AllDigits(s) && s[0] != '0'
    ensures NumberOf(s) > 0
  {
    if |s| > 1 {
      PositiveWhenNoLeadingZero(s[..|s| - 1]);
    }
  }

  lemma DecInjective(m: nat, n: nat)
    requires Dec(m) == Dec(n)
    ensures m == n
  {
    NumberOfDec(m);
    NumberOfDec(n);
  }

  function Pow10(k: nat): (p: nat)
    ensures p > 0
  {
    if k == 0 then 1 else 10 * Pow10(k - 1)
  }

  lemma {:induction false} DecLength(n: nat, k: nat)
    requires n < Pow10(k) && k > 0
    ensures |Dec(n)| <= k
  {
    if n >= 10 {
      DecLength(n / 10, k - 1);
    }
  }

  /** A C long takes at most 19 digits, and a sign when it is negative. */
  lemma LongLength(v: int)
    requires LONG_MIN <= v <= LONG_MAX
    ensures |PrintLong(v)| <= if v < 0 then 20 else 19
  {
    assert Pow10(19) == 10000000000000000000 by {
      assert Pow10(5) == 100000;
      assert Pow10(10) == 10000000000;
      assert Pow10(15) == 1000000000000000;
    }
    DecLength(if v < 0 then -v else v, 19);
  }

  predicate IsSpace(c: char) {
    c == ' ' || 9 <= c as int <= 13
  }

  function SkipSpaces(s: string): string {
    if s != [] && IsSpace(s[0]) then SkipSpaces(s[1..]) else s
  }

  /** The longest prefix made of digits. */
  function LeadingDigits(s: string): (d: string)
    ensures AllDigits(d) && d <= s
  {
    if s != [] && IsDigit(s[0]) then [s[0]] + LeadingDigits(s[1..]) else []
  }

  function Clamp(v: int): (c: int)
    ensures LONG_MIN <= c <= LONG_MAX
    ensures LONG_MIN <= v <= LONG_MAX ==> c == v
  {
    if v > LONG_MAX then LONG_MAX else if v < LONG_MIN then LONG_MIN else v
  }

  /** `strtol(s, NULL, 10)` and `strtoll(s, NULL, 10)`: both types have 64 bits. */
  function StrToL(s: string): int {
    var t := SkipSpaces(s);
    if t != [] && t[0] == '-' then Clamp(0 - NumberOf(LeadingDigits(t[1..])))
    else if t != [] && t[0] == '+' then Clamp(NumberOf(LeadingDigits(t[1..])))
    else Clamp(NumberOf(LeadingDigits(t)))
  }

  lemma {:induction false} LeadingDigitsOf(d: string, rest: string)
    requires AllDigits(d)
    requires rest == [] || !IsDigit(rest[0])
    ensures LeadingDigits(d + rest) == d
  {
    if d == [] {
      assert d + rest == rest;
    } else {
      assert (d + rest)[1..] == d[1..] + rest;
      LeadingDigitsOf(d[1..], rest);
    }
  }

  lemma StrToLDec(n: nat, rest: string)
    requires n <= LONG_MAX
    requires rest == [] || !IsDigit(rest[0])
    ensures StrToL(Dec(n) + rest) == n
  {
    var s := Dec(n) + rest;
    NumberOfDec(n);
    LeadingDigitsOf(Dec(n), rest);
    assert s[0] == Dec(n)[0];
    assert SkipSpaces(s) == s;
  }

  /** Reading undoes printing, whatever text follows the number. */
  lemma StrToLPrintLong(v: int, rest: string)
    requires LONG_MIN <= v <= LONG_MAX
    requires rest == [] || !IsDigit(rest[0])
    ensures StrToL(PrintLong(v) + rest) == v
  {
    if 0 <= v {
      StrToLDec(v, rest);
    } else {
      var s := "-" + Dec(-v) + rest;
      NumberOfDec(-v);
      LeadingDigitsOf(Dec(-v), rest);
      assert SkipSpaces(s) == s;
      assert s[1..] == Dec(-v) + rest;
    }
  }

  /** All of `strtol`: blanks, a sign, digits, and anything that is no digit behind them;
      values beyond a long saturate. */
  lemma StrToLLaw(blanks: string, digits: string, rest: string)
    requires (forall i :: 0 <= i < |blanks| ==> IsSpace(blanks[i])) && AllDigits(digits)
    requires rest == [] || !IsDigit(rest[0])
    ensures StrToL(blanks + ("-" + (digits + rest))) == Clamp(0 - NumberOf(digits))
    ensures StrToL(blanks + ("+" + (digits + rest))) == Clamp(NumberOf(digits))
    ensures digits != [] ==> StrToL(blanks + (digits + rest)) == Clamp(NumberOf(digits))
  {
    hide NumberOf, Clamp, LeadingDigits, SkipSpaces, StrToL;
    LeadingDigitsOf(digits, rest);
    SignedNumber(blanks, '-', digits + rest);
    SignedNumber(blanks, '+', digits + rest);
    if digits != [] {
      assert (digits + rest)[0] == digits[0];
      UnsignedNumber(blanks, digits + rest);
    }
  }

  lemma SignedNumber(blanks: string, sign: char, t: string)
    requires (forall i :: 0 <= i < |blanks| ==> IsSpace(blanks[i])) && (sign == '-' || sign == '+')
    ensures StrToL(blanks + ([sign] + t))
         == Clamp(if sign == '-' then 0 - NumberOf(LeadingDigits(t)) else NumberOf(LeadingDigits(t)))
  {
    hide NumberOf, Clamp, LeadingDigits, SkipSpaces;
    BlanksAreSkipped(blanks, [sign] + t);
    assert ([sign] + t)[1..] == t;
  }

  lemma UnsignedNumber(blanks: string, t: string)
    requires (forall i :: 0 <= i < |blanks| ==> IsSpace(blanks[i])) && t != [] && IsDigit(t[0])
    ensures StrToL(blanks + t) == Clamp(NumberOf(LeadingDigits(t)))
  {
    hide NumberOf, Clamp, LeadingDigits, SkipSpaces;
    BlanksAreSkipped(blanks, t);
  }

  lemma {:induction false} BlanksAreSkipped(blanks: string, s: string)
    requires forall i :: 0 <= i < |blanks| ==> IsSpace(blanks[i])
    requires s == [] || !IsSpace(s[0])
    ensures SkipSpaces(blanks + s) == s
  {
    if blanks == [] {
      assert blanks + s == s;
    } else {
      assert (blanks + s)[1..] == blanks[1..] + s;
      BlanksAreSkipped(blanks[1..], s);
    }
  }
}
