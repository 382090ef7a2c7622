/** Python's `str(n)` for an integer, as used to put a process exit code into a
    message, and its inverse on the strings it produces. */
module PyInt {
  import opened Options

  predicate IsDigit(c: char) {
    '0' <= c <= '9'
  }

  predicate AllDigits(s: string) {
    forall k :: 0 <= k < |s| ==> IsDigit(s[k])
  }

  function DigitChar(d: nat): (c: char)
    requires d < 10
    ensures IsDigit(c) && c as int - '0' as int == d
  {
    ('0' as int + d) as char
  }

  /** The decimal digits of `n`, most significant first, without leading zeros. */
  function Digits(n: nat): (s: string)
    ensures s != [] && AllDigits(s)
    ensures s[0] == '0' <==> n == 0
    ensures n == 0 ==> s == "0"
    decreases n
  {
    if n < 10 then [DigitChar(n)] else Digits(n / 10) + [DigitChar(n % 10)]
  }

  /** The number a string of decimal digits denotes. */
  function DigitsValue(s: string): nat
    requires AllDigits(s)
  {
    if s == [] then 0 else 10 * DigitsValue(s[..|s| - 1]) + (s[|s| - 1] as int - '0' as int)
  }

  /** `str(i)`: a minus sign for a negative value (a process killed by a signal
      reports a negative exit code), then the digits of its magnitude. */
  function IntToString(i: int): (s: string)
    ensures s != []
    ensures i < 0 <==> s[0] == '-'
    ensures forall k :: 0 <= k < |s| && k > 0 ==> IsDigit(s[k])
    ensures forall k :: 0 <= k < |s| ==> s[k] == '-' || IsDigit(s[k])
    ensures i >= 0 && s[0] == '0' ==> s == "0"
    ensures i < 0 ==> |s| > 1 && s[1] != '0'
  {
    if i < 0 then "-" + Digits(-i) else Digits(i)
  }

  /** The integer a string written as `str` writes one denotes, if it is such a string. */
  function ParseInt(s: string): Option<int> {
    if s != [] && s[0] == '-' && |s| > 1 && AllDigits(s[1..]) then Some(0 - DigitsValue(s[1..]) as int)
    else if s != [] && AllDigits(s) then Some(DigitsValue(s))
    else None
  }

  lemma {:induction false} DigitsValueOfDigits(n: nat)
    ensures DigitsValue(Digits(n)) == n
    decreases n
  {
    if n >= 10 {
      DigitsValueOfDigits(n / 10);
      var s := Digits(n);
      assert s[..|s| - 1] == Digits(n / 10);
    }
  }

  /** Reading back what `str` wrote gives the same integer. */
  lemma IntToStringRoundTrip(i: int)
    ensures ParseInt(IntToString(i)) == Some(i)
  {
    if i < 0 {
      DigitsValueOfDigits(-i);
      assert IntToString(i)[1..] == Digits(-i);
    } else {
      DigitsValueOfDigits(i);
    }
  }

  /** Decimal text as `str` writes it: an optional minus sign, at least one digit,
      no leading zero except in "0" itself, and no "-0". */
  predicate Canonical(s: string) {
    || (s != [] && AllDigits(s) && (s[0] == '0' ==> s == "0"))
    || (|s| > 1 && s[0] == '-' && AllDigits(s[1..]) && s[1] != '0')
  }

  /** A digit string without a leading zero denotes a positive number. */
  lemma {:induction false} LeadingDigitPositive(s: string)
    requires s != [] && AllDigits(s) && s[0] != '0'
    ensures DigitsValue(s) > 0
    decreases |s|
  {
    if |s| > 1 {
      var p := s[..|s| - 1];
      assert p[0] == s[0];
      LeadingDigitPositive(p);
    }
  }

  /** A digit string without a leading zero is the one `Digits` writes for its value. */
  lemma {:induction false} DigitsOfValue(s: string)
    requires s != [] && AllDigits(s) && (s[0] == '0' ==> s == "0")
    ensures Digits(DigitsValue(s)) == s
    decreases |s|
  {
    if |s| > 1 {
      var p := s[..|s| - 1];
      assert p[0] == s[0];
      LeadingDigitPositive(p);
      DigitsOfValue(p);
      var n := DigitsValue(s);
      var d := s[|s| - 1] as int - '0' as int;
      assert n / 10 == DigitsValue(p) && n % 10 == d;
      assert s == p + [s[|s| - 1]];
    }
  }

  /** `str` is the only canonical way to write an integer: canonical text that
      reads back as `i` is exactly what `str(i)` writes. */
  lemma IntToStringUnique(s: string, i: int)
    requires Canonical(s) && ParseInt(s) == Some(i)
    ensures s == IntToString(i)
  {
    if s[0] == '-' {
      DigitsOfValue(s[1..]);
      assert s == "-" + s[1..];
    } else {
      DigitsOfValue(s);
    }
  }

  /** What `str` writes is canonical. */
  lemma IntToStringCanonical(i: int)
    ensures Canonical(IntToString(i))
  {
    if i < 0 {
      assert IntToString(i)[1..] == Digits(-i);
    }
  }

  /** Different integers are written differently. */
  lemma IntToStringInjective(a: int, b: int)
    ensures IntToString(a) == IntToString(b) ==> a == b
  {
    IntToStringRoundTrip(a);
    IntToStringRoundTrip(b);
  }
}
