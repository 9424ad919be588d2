/** Decimal printing of integers and the integer parsers of the source language's standard library. */
module Decimal {
  import opened Common

  predicate IsDigit(c: char) { '0' <= c <= '9' }

  predicate AllDigits(s: string) { forall i :: 0 <= i < |s| ==> IsDigit(s[i]) }

  function DigitValue(c: char): (d: nat)
    requires IsDigit(c)
    ensures d < 10
  {
    c as int - '0' as int
  }

  function DigitChar(d: nat): (c: char)
    requires d < 10
    ensures IsDigit(c) && DigitValue(c) == d
  {
    (d + '0' as int) as char
  }

  function DigitsValue(s: string): nat
    requires AllDigits(s)
  {
    if s == "" then 0 else 10 * DigitsValue(s[..|s| - 1]) + DigitValue(s[|s| - 1])
  }

  function ToDecimal(n: nat): (s: string)
    ensures s != "" && AllDigits(s)
  {
    (if n < 10 then "" else ToDecimal(n / 10)) + [DigitChar(n % 10)]
  }

  function IntToDecimal(n: int): string
  {
    if n < 0 then "-" + ToDecimal(-n) else ToDecimal(n)
  }

  lemma {:induction false} DecimalRoundTrip(n: nat)
    ensures DigitsValue(ToDecimal(n)) == n
  {
    var s := ToDecimal(n);
    if n >= 10 {
      DecimalRoundTrip(n / 10);
      assert s[..|s| - 1] == ToDecimal(n / 10);
    }
  }

  /** `str::parse::<u64>`: an optional `+`, then at least one digit, within range. */
  function ParseU64(s: string): Option<uint64>
  {
    var digits := if s != "" && s[0] == '+' then s[1..] else s;
    if digits == "" || !AllDigits(digits) || DigitsValue(digits) > USIZE_MAX then None
    else Some(DigitsValue(digits))
  }

  /** `str::parse::<i64>`: an optional sign, then at least one digit, within range. */
  function ParseI64(s: string): Option<int64>
  {
    var negative := s != "" && s[0] == '-';
    var digits := if s != "" && (s[0] == '+' || s[0] == '-') then s[1..] else s;
    if digits == "" || !AllDigits(digits) then None
    else
      var v: int := if negative then -(DigitsValue(digits) as int) else DigitsValue(digits);
      if -0x8000_0000_0000_0000 <= v < 0x8000_0000_0000_0000 then Some(v) else None
  }

  lemma ParseU64RoundTrip(n: uint64)
    ensures ParseU64(ToDecimal(n)) == Some(n)
  {
    DecimalRoundTrip(n);
    assert IsDigit(ToDecimal(n)[0]);
  }

  lemma ParseI64RoundTrip(n: int64)
    ensures ParseI64(IntToDecimal(n)) == Some(n)
  {
    var m: nat := if n < 0 then -(n as int) else n;
    DecimalRoundTrip(m);
    assert IsDigit(ToDecimal(m)[0]);
    assert n < 0 ==> IntToDecimal(n)[1..] == ToDecimal(m);
  }

  // ---------------------------------------------------------------- numerals

  function Zeros(n: int): string
  {
    if n <= 0 then "" else "0" + Zeros(n - 1)
  }

  lemma {:induction false} ZeroDigits(n: int, s: string)
    requires AllDigits(s)
    ensures AllDigits(Zeros(n) + s) && DigitsValue(Zeros(n) + s) == DigitsValue(s)
    decreases |s| + if n > 0 then n else 0
  {
    var t := Zeros(n) + s;
    if s != "" {
      ZeroDigits(n, s[..|s| - 1]);
      assert t[..|t| - 1] == Zeros(n) + s[..|s| - 1];
    } else {
      assert t == Zeros(n);
      OnlyZeros(n);
    }
  }

  lemma {:induction false} OnlyZeros(n: int)
    ensures AllDigits(Zeros(n)) && DigitsValue(Zeros(n)) == 0 && |Zeros(n)| == if n <= 0 then 0 else n
    ensures n > 0 ==> Zeros(n) == Zeros(n - 1) + "0"
    decreases n
  {
    if n > 0 {
      OnlyZeros(n - 1);
      if n > 1 {
        assert Zeros(n) == "0" + (Zeros(n - 2) + "0") == ("0" + Zeros(n - 2)) + "0";
      }
      assert Zeros(n)[..n - 1] == Zeros(n - 1);
    }
  }

  /** A numeral starts with zero only when it is zero. */
  lemma {:induction false} NoLeadingZero(n: nat)
    ensures ToDecimal(n)[0] == '0' ==> n == 0
    ensures n < 10 ==> |ToDecimal(n)| == 1
  {
    if n >= 10 {
      NoLeadingZero(n / 10);
    }
  }

  lemma DecimalSnoc(v: nat, d: nat)
    requires d < 10
    ensures ToDecimal(10 * v + d) == (if v == 0 then "" else ToDecimal(v)) + [DigitChar(d)]
  {
    assert (10 * v + d) / 10 == v && (10 * v + d) % 10 == d;
  }

  /** Any string of digits is zeros before the numeral of its value. */
  lemma {:induction false} DigitsAreNumeral(s: string) returns (k: nat)
    requires s != "" && AllDigits(s)
    ensures s == Zeros(k) + ToDecimal(DigitsValue(s))
  {
    hide ToDecimal, Zeros;
    var n := |s| - 1;
    var t, d := s[..n], DigitValue(s[n]);
    assert s == t + [s[n]] && s[n] == DigitChar(d);
    DecimalSnoc(DigitsValue(t), d);
    k := 0;
    if t == "" {
      OnlyZeros(0);
    } else {
      k := DigitsAreNumeral(t);
      if DigitsValue(t) == 0 {
        DecimalSnoc(0, 0);
        OnlyZeros(k + 1);
        k := k + 1;
      }
    }
  }

  ghost predicate IsNumeral(s: string, n: nat) { exists k: nat :: s == Zeros(k) + ToDecimal(n) }

  lemma NumeralIff(s: string, n: nat)
    ensures s != "" && AllDigits(s) && DigitsValue(s) == n <==> IsNumeral(s, n)
  {
    hide ToDecimal, DigitsValue, Zeros;
    if s != "" && AllDigits(s) && DigitsValue(s) == n {
      var k := DigitsAreNumeral(s);
    }
    if IsNumeral(s, n) {
      var k: nat :| s == Zeros(k) + ToDecimal(n);
      ZeroDigits(k, ToDecimal(n));
      DecimalRoundTrip(n);
    }
  }

  lemma NumeralStart(s: string, n: nat)
    requires IsNumeral(s, n)
    ensures s != "" && s[0] != '+' && s[0] != '-'
  {
    NumeralIff(s, n);
    assert IsDigit(s[0]);
  }

  /** The unsigned parser accepts exactly a numeral, zeros before it allowed, and one plus sign. */
  lemma ParseU64Iff(s: string, n: uint64)
    ensures ParseU64(s) == Some(n) <==> IsNumeral(s, n) || (s != "" && s[0] == '+' && IsNumeral(s[1..], n))
  {
    hide IsNumeral, DigitsValue;
    var digits := if s != "" && s[0] == '+' then s[1..] else s;
    NumeralIff(digits, n);
    if IsNumeral(s, n) {
      NumeralStart(s, n);
    }
  }

  /** The signed parser accepts exactly a numeral with an optional sign, and means minus by a minus sign. */
  lemma ParseI64Iff(s: string, n: int64)
    ensures ParseI64(s) == Some(n)
       <==> || (n >= 0 && IsNumeral(s, n)) || (n >= 0 && s != "" && s[0] == '+' && IsNumeral(s[1..], n))
            || (n <= 0 && s != "" && s[0] == '-' && IsNumeral(s[1..], -(n as int)))
  {
    hide IsNumeral, DigitsValue;
    var digits := if s != "" && (s[0] == '+' || s[0] == '-') then s[1..] else s;
    var m: nat := if n < 0 then -(n as int) else n;
    NumeralIff(digits, m);
    if IsNumeral(s, m) {
      NumeralStart(s, m);
    }
  }
}
