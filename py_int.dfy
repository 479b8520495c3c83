/** Python's `str(n)` for integers and `int(s)` for decimal strings. */
module PyInt {
  import opened Wrappers

  predicate IsDigit(c: char)
  {
    '0' <= c <= '9'
  }

  predicate AllDigits(s: string)
  {
    forall k | 0 <= k < |s| :: IsDigit(s[k])
  }

  function DigitChar(d: nat): (c: char)
    requires d < 10
    ensures IsDigit(c)
  {
    ('0' as int + d) as char
  }

  function DigitValue(c: char): (d: nat)
    requires IsDigit(c)
    ensures d < 10 && DigitChar(d) == c
  {
    c as int - '0' as int
  }

  /** The value of a string of decimal digits, read most significant first. */
  function DigitsValue(s: string): nat
    requires AllDigits(s)
  {
    if s == [] then 0 else DigitsValue(s[..|s| - 1]) * 10 + DigitValue(s[|s| - 1])
  }

  /** Python's `str(n)` for `n >= 0`: decimal, no leading zeros. */
  function NatToString(n: nat): (s: string)
    ensures s != [] && AllDigits(s)
    ensures s[0] == '0' ==> s == "0"
  {
    if n < 10 then [DigitChar(n)] else NatToString(n / 10) + [DigitChar(n % 10)]
  }

  /**
   * Python's `str(i)` for any integer: a `-` exactly for negative numbers,
   * then the decimal digits of the magnitude without leading zeros, which
   * `int` reads back as `i`.
   */
  function IntToString(i: int): (s: string)
    ensures ParseInt(s) == Some(i)
    ensures s != [] && (s[0] == '-' <==> i < 0)
    ensures var digits := if i < 0 then s[1..] else s;
            digits != [] && AllDigits(digits) && (digits[0] == '0' ==> digits == "0")
  {
    DigitsValueOfNatToString(if i < 0 then -i else i);
    if i < 0 then "-" + NatToString(-i) else NatToString(i)
  }

  /** The strings `int` accepts here: an optional sign, then at least one decimal digit. */
  predicate IsIntLiteral(s: string)
  {
    if s != [] && (s[0] == '+' || s[0] == '-') then s[1..] != [] && AllDigits(s[1..])
    else s != [] && AllDigits(s)
  }

  /** The literals `str` produces: no `+`, no leading zero and no `-0`. */
  predicate IsCanonicalIntLiteral(s: string)
  {
    var digits := if s != [] && s[0] == '-' then s[1..] else s;
    && digits != [] && AllDigits(digits)
    && (digits[0] == '0' ==> digits == "0" && s == digits)
  }

  /**
   * Python's `int(s)` on a token with no surrounding whitespace: an optional
   * sign followed by at least one decimal digit; anything else raises
   * `ValueError`, modelled as `None`.
   */
  function ParseInt(s: string): (r: Option<int>)
    ensures r.Some? <==> IsIntLiteral(s)
    ensures r.Some? && r.value < 0 ==> s[0] == '-'
    ensures r.Some? && r.value > 0 ==> s[0] != '-'
  {
    if s != [] && (s[0] == '+' || s[0] == '-') then
      var digits := s[1..];
      if digits != [] && AllDigits(digits) then
        var magnitude: int := DigitsValue(digits);
        Some(if s[0] == '-' then -magnitude else magnitude)
      else None
    else if s != [] && AllDigits(s) then Some(DigitsValue(s))
    else None
  }

  lemma {:induction false} DigitsValueOfNatToString(n: nat)
    ensures DigitsValue(NatToString(n)) == n
    decreases n
  {
    var s := NatToString(n);
    if n >= 10 {
      assert s[..|s| - 1] == NatToString(n / 10);
      DigitsValueOfNatToString(n / 10);
    }
  }

  /** Digits that do not start with '0' have a positive value. */
  lemma {:induction false} DigitsValuePositive(d: string)
    requires d != [] && AllDigits(d) && d[0] != '0'
    ensures DigitsValue(d) > 0
    decreases |d|
  {
    if |d| > 1 {
      DigitsValuePositive(d[..|d| - 1]);
    }
  }

  /** `str` of the value of digits without a leading zero gives those digits back. */
  lemma {:induction false} NatToStringOfDigits(d: string)
    requires d != [] && AllDigits(d) && (d[0] == '0' ==> d == "0")
    ensures NatToString(DigitsValue(d)) == d
    decreases |d|
  {
    if |d| > 1 {
      var prefix := d[..|d| - 1];
      DigitsValuePositive(prefix);
      NatToStringOfDigits(prefix);
      var v := DigitsValue(d);
      assert v / 10 == DigitsValue(prefix) && v % 10 == DigitValue(d[|d| - 1]);
      assert d == prefix + [d[|d| - 1]];
    }
  }

  /** `str(int(s)) == s` for every literal `str` can produce. */
  lemma IntToStringOfCanonical(s: string)
    requires IsCanonicalIntLiteral(s)
    ensures ParseInt(s).Some? && IntToString(ParseInt(s).value) == s
  {
    if s[0] == '-' {
      var digits := s[1..];
      DigitsValuePositive(digits);
      NatToStringOfDigits(digits);
      assert s == "-" + digits;
    } else {
      NatToStringOfDigits(s);
    }
  }

  /** What `str` writes is a canonical literal. */
  lemma IntToStringIsCanonical(i: int)
    ensures IsCanonicalIntLiteral(IntToString(i))
  {
  }

  /** A leading `0` does not change the value of a digit string. */
  lemma {:induction false} DigitsValueLeadingZero(d: string)
    requires AllDigits(d)
    ensures DigitsValue("0" + d) == DigitsValue(d)
    decreases |d|
  {
    if d != [] {
      var prefix := d[..|d| - 1];
      assert ("0" + d)[..|d|] == "0" + prefix;
      DigitsValueLeadingZero(prefix);
    }
  }

  /**
   * `int` ignores a leading zero and a `+`, and a `-` negates: with
   * `IntToStringOfCanonical` these fix the value of every literal, so
   * `int("07") == 7` and `int("-007") == -7`.
   */
  lemma ParseIntSignAndZeros(d: string)
    requires d != [] && AllDigits(d)
    ensures ParseInt(d) == Some(DigitsValue(d))
    ensures ParseInt("0" + d) == ParseInt(d)
    ensures ParseInt("+" + d) == ParseInt(d)
    ensures ParseInt("-" + d) == Some(-(DigitsValue(d) as int))
    ensures ParseInt("-0" + d) == ParseInt("-" + d)
  {
    DigitsValueLeadingZero(d);
    assert ("0" + d)[0] == '0';
    assert ("+" + d)[1..] == d;
    assert ("-" + d)[1..] == d;
    assert ("-0" + d)[1..] == "0" + d;
  }

  /** `int("07") == 7`: Python reads a day written with a leading zero. */
  lemma ParseIntLeadingZeroExample()
    ensures ParseInt("07") == Some(7)
  {
    ParseIntSignAndZeros("7");
    assert "0" + "7" == "07";
  }

  /** `str` is injective on integers, so distinct numbers print differently. */
  lemma IntToStringInjective(i: int, j: int)
    requires IntToString(i) == IntToString(j)
    ensures i == j
  {
  }
}
