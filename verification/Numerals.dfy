/** Decimal and hexadecimal digits, and the integer texts of Go's strconv. */
module Numerals {
  import opened Bytes

  function Digit(n: int): (c: char)
    requires 0 <= n < 16
    ensures n < 10 ==> IsDigit(c) && DigitValue(c) == n
  {
    "0123456789abcdef"[n]
  }

  predicate IsDigit(c: char) {
    '0' <= c <= '9'
  }

  function DigitValue(c: char): (d: nat)
    requires IsDigit(c)
    ensures d < 10
  {
    c as int - '0' as int
  }

  function Abs(n: int): nat {
    if n < 0 then -n else n
  }

  /** What value becomes when the digits of s are written behind it. */
  function Digits(s: string, value: nat): Option<nat>
    decreases |s|
  {
    if s == "" then Some(value)
    else if IsDigit(s[0]) then Digits(s[1..], value * 10 + DigitValue(s[0]))
    else None
  }

  predicate IsInt64(n: int) {
    -0x8000_0000_0000_0000 <= n < 0x8000_0000_0000_0000
  }

  /** strconv.ParseInt(s, 10, 64): an optional sign, then decimal digits, within the int64 range. */
  function ParseInt(s: string): (r: Option<int>)
    ensures r.Some? ==> IsInt64(r.value)
  {
    if s == "" then None else
    var digits := if s[0] == '+' || s[0] == '-' then s[1..] else s;
    if digits == "" then None else
    var n := Digits(digits, 0);
    if n.None? then None else
    var magnitude: int := n.value;
    var signed := if s[0] == '-' then -magnitude else magnitude;
    if IsInt64(signed) then Some(signed) else None
  }

  /** strconv.FormatInt(n, 10), with which clients write timestamps. */
  function FormatInt(n: int): string {
    if n < 0 then "-" + FormatNat(-n) else FormatNat(n)
  }

  function FormatNat(n: nat): (s: string)
    ensures s != "" && IsDigit(s[0])
  {
    if n < 10 then [Digit(n)] else FormatNat(n / 10) + [Digit(n % 10)]
  }

  // ---------------------------------------------------------------- digits behind digits

  lemma {:induction false} DigitsConcat(s: string, t: string, value: nat)
    ensures Digits(s + t, value) == if Digits(s, value).None? then None else Digits(t, Digits(s, value).value)
    decreases |s|
  {
    if s == "" {
      assert s + t == t;
    } else {
      assert (s + t)[0] == s[0] && (s + t)[1..] == s[1..] + t;
      if IsDigit(s[0]) {
        DigitsConcat(s[1..], t, value * 10 + DigitValue(s[0]));
      }
    }
  }

  lemma OneDigit(c: char, value: nat)
    ensures Digits([c], value) == if IsDigit(c) then Some(value * 10 + DigitValue(c)) else None
  {
    assert [c][1..] == "";
  }

  lemma DigitsAppend(s: string, c: char, value: nat)
    requires Digits(s, 0) == Some(value) && IsDigit(c)
    ensures Digits(s + [c], 0) == Some(value * 10 + DigitValue(c))
  {
    DigitsConcat(s, [c], 0);
    OneDigit(c, value);
  }

  lemma {:induction false} FormatNatDigits(n: nat)
    ensures Digits(FormatNat(n), 0) == Some(n)
  {
    if n < 10 {
      OneDigit(Digit(n), 0);
    } else {
      FormatNatDigits(n / 10);
      DigitsAppend(FormatNat(n / 10), Digit(n % 10), n / 10);
    }
  }

  lemma {:induction false} DigitsGrow(s: string, value: nat)
    requires s != "" && Digits(s, value).Some?
    ensures IsDigit(s[0]) && Digits(s, value).value >= 10 * value
    decreases |s|
  {
    if |s| > 1 {
      DigitsGrow(s[1..], value * 10 + DigitValue(s[0]));
    } else {
      assert s == [s[0]];
      OneDigit(s[0], value);
    }
  }

  // ---------------------------------------------------------------- which texts parse

  function Leading(zeros: nat): string {
    seq(zeros, _ => '0')
  }

  lemma {:induction false} LeadingDigits(zeros: nat)
    ensures Digits(Leading(zeros), 0) == Some(0)
  {
    if zeros > 0 {
      assert Leading(zeros)[1..] == Leading(zeros - 1);
      LeadingDigits(zeros - 1);
    }
  }

  lemma ZerosThenDecimal(zeros: nat, n: nat)
    ensures Digits(Leading(zeros) + FormatNat(n), 0) == Some(n)
  {
    LeadingDigits(zeros);
    FormatNatDigits(n);
    DigitsConcat(Leading(zeros), FormatNat(n), 0);
  }

  /** Digits that denote n are zeros, then the decimal text of n. */
  lemma {:induction false} DigitsAreDecimal(s: string, n: nat) returns (zeros: nat)
    requires s != "" && Digits(s, 0) == Some(n)
    ensures s == Leading(zeros) + FormatNat(n)
    decreases |s|
  {
    var init, c := s[..|s| - 1], s[|s| - 1];
    assert s == init + [c];
    DigitsConcat(init, [c], 0);
    OneDigit(c, Digits(init, 0).value);
    var front := Digits(init, 0).value;
    assert front == n / 10 && DigitValue(c) == n % 10 && c == Digit(n % 10);
    if init == "" {
      zeros := 0;
    } else {
      zeros := DigitsAreDecimal(init, front);
      if front == 0 {
        zeros := zeros + 1;
        assert FormatNat(0) == "0";
        assert s == Leading(zeros) + [c];
      } else {
        assert s == Leading(zeros) + (FormatNat(front) + [c]);
      }
    }
  }

  /** "+" and "-" are optional for zero, "-" is due for a negative number. */
  predicate SignFits(sign: string, n: int) {
    ((sign == "" || sign == "+") && n >= 0) || (sign == "-" && n <= 0)
  }

  ghost predicate Denotes(s: string, n: int) {
    exists sign, zeros :: SignFits(sign, n) && s == sign + Leading(zeros) + FormatNat(Abs(n))
  }

  lemma DenotedParses(s: string, n: int, sign: string, zeros: nat)
    requires IsInt64(n) && SignFits(sign, n) && s == sign + Leading(zeros) + FormatNat(Abs(n))
    ensures ParseInt(s) == Some(n)
  {
    var digits := Leading(zeros) + FormatNat(Abs(n));
    ZerosThenDecimal(zeros, Abs(n));
    assert s == sign + digits;
    assert IsDigit(digits[0]);
    assert sign == "" ==> s == digits;
    assert sign != "" ==> s[0] == sign[0] && s[1..] == digits;
  }

  lemma ParsedDenotes(s: string, n: int)
    requires ParseInt(s) == Some(n)
    ensures Denotes(s, n)
  {
    var signed := s[0] == '+' || s[0] == '-';
    var digits, sign := if signed then s[1..] else s, if signed then [s[0]] else "";
    var zeros := DigitsAreDecimal(digits, Abs(n));
    assert s == sign + digits;
    assert s == sign + Leading(zeros) + FormatNat(Abs(n));
    assert SignFits(sign, n);
  }

  /** Exactly the texts that parse to n: an optional fitting sign, any number of zeros, the decimal text. */
  lemma ParseExactly(s: string, n: int)
    ensures ParseInt(s) == Some(n) <==> IsInt64(n) && Denotes(s, n)
  {
    if IsInt64(n) && Denotes(s, n) {
      var sign, zeros :| SignFits(sign, n) && s == sign + Leading(zeros) + FormatNat(Abs(n));
      DenotedParses(s, n, sign, zeros);
    }
    if ParseInt(s) == Some(n) {
      ParsedDenotes(s, n);
    }
  }

  /** A formatted number parses back exactly if it is an int64. */
  lemma ParseFormatted(n: int)
    ensures ParseInt(FormatInt(n)) == Some(n) <==> IsInt64(n)
  {
    if IsInt64(n) {
      var sign := if n < 0 then "-" else "";
      assert Leading(0) == "" && FormatInt(n) == sign + Leading(0) + FormatNat(Abs(n));
      DenotedParses(FormatInt(n), n, sign, 0);
    }
  }

  // ---------------------------------------------------------------- texts that extend each other

  /** Text behind a number gives a number only if it is digits, and then one at least ten times as large. */
  lemma ParseLonger(s: string, t: string)
    requires t != "" && ParseInt(s).Some? && ParseInt(s + t).Some?
    ensures IsDigit(t[0])
    ensures ParseInt(s + t).value > 0 ==> 0 <= 10 * ParseInt(s).value <= ParseInt(s + t).value
  {
    var signed := s[0] == '+' || s[0] == '-';
    var digits := if signed then s[1..] else s;
    assert (s + t)[0] == s[0];
    assert (if signed then (s + t)[1..] else s + t) == digits + t;
    DigitsConcat(digits, t, 0);
    DigitsGrow(t, Digits(digits, 0).value);
  }

  /** One character is a number only if it is a digit. */
  lemma ParseOneDigit(c: char)
    ensures ParseInt([c]) == if '0' <= c <= '9' then Some(c as int - '0' as int) else None
  {
    OneDigit(c, 0);
  }

  /** One more digit: ten times the number, and the digit. */
  lemma ParseOneMore(s: string, d: char)
    requires ParseInt(s).Some? && ParseInt(s).value > 0 && IsDigit(d)
    requires IsInt64(10 * ParseInt(s).value + DigitValue(d))
    ensures ParseInt(s + [d]) == Some(10 * ParseInt(s).value + DigitValue(d))
  {
    var signed := s[0] == '+' || s[0] == '-';
    var digits := if signed then s[1..] else s;
    assert (s + [d])[0] == s[0];
    assert (if signed then (s + [d])[1..] else s + [d]) == digits + [d];
    DigitsAppend(digits, d, Digits(digits, 0).value);
  }
}
