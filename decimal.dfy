/**
 * Decimal text of integers: Python's `str(n)` for an `int` and the subset
 * of `int(text)` that this model accepts (an optional sign and ASCII digits).
 */
module Decimal {
  import opened Results

  predicate IsDigit(c: char)
  {
    '0' <= c <= '9'
  }

  predicate AllDigits(s: string)
  {
    forall i :: 0 <= i < |s| ==> IsDigit(s[i])
  }

  function DigitValue(c: char): nat
    requires IsDigit(c)
  {
    c as int - '0' as int
  }

  function DigitChar(d: nat): (c: char)
    requires d < 10
    ensures IsDigit(c) && DigitValue(c) == d
  {
    ('0' as int + d) as char
  }

  /** `str(n)` for a natural number: its digits, most significant first, without leading zeros. */
  function NatToString(n: nat): (s: string)
    ensures |s| >= 1 && AllDigits(s)
    ensures |s| > 1 ==> s[0] != '0'
  {
    if n < 10 then [DigitChar(n)]
    else NatToString(n / 10) + [DigitChar(n % 10)]
  }

  /** The number a string of digits denotes. */
  function DigitsValue(s: string): nat
    requires AllDigits(s)
  {
    if s == [] then 0
    else DigitsValue(s[..|s| - 1]) * 10 + DigitValue(s[|s| - 1])
  }

  /** Reading back the digits of `n` gives `n`. */
  lemma {:induction false} DigitsValueOfNat(n: nat)
    ensures DigitsValue(NatToString(n)) == n
  {
    if n >= 10 {
      var s := NatToString(n);
      assert s[..|s| - 1] == NatToString(n / 10);
      DigitsValueOfNat(n / 10);
    }
  }

  lemma NatToStringInjective(a: nat, b: nat)
    requires NatToString(a) == NatToString(b)
    ensures a == b
  {
    DigitsValueOfNat(a);
    DigitsValueOfNat(b);
  }

  /** `str(i)` for any integer. */
  function IntToString(i: int): (s: string)
    ensures |s| >= 1
    ensures forall k :: 0 <= k < |s| ==> IsDigit(s[k]) || (k == 0 && s[k] == '-')
    ensures s[0] == '-' <==> i < 0
    ensures |s| > 1 && s[0] != '-' ==> s[0] != '0'
  {
    if i < 0 then "-" + NatToString(-i) else NatToString(i)
  }

  /**
   * `int(text)`: an optional '+' or '-' followed by at least one ASCII digit.
   * Anything else raises ValueError in the source, modelled as None.
   */
  function ParseInt(text: string): (r: Option<int>)
    ensures r.Some? ==> exists k :: 0 <= k < |text| && IsDigit(text[k])
    ensures r.Some? ==> forall k :: 0 <= k < |text| ==> IsDigit(text[k]) || (k == 0 && text[k] in "+-")
    ensures AllDigits(text) && text != "" ==> r.Some? && r.value >= 0
    ensures |text| == 1 && IsDigit(text[0]) ==> r == Some(DigitValue(text[0]))
  {
    assert |text| == 1 && IsDigit(text[0]) ==> text[..0] == [] && AllDigits(text) && DigitsValue(text) == DigitValue(text[0]);
    if |text| >= 2 && text[0] == '-' && AllDigits(text[1..]) then Some(-(DigitsValue(text[1..]) as int))
    else if |text| >= 2 && text[0] == '+' && AllDigits(text[1..]) then Some(DigitsValue(text[1..]))
    else if |text| >= 1 && AllDigits(text) then Some(DigitsValue(text))
    else None
  }

  /** Appending a digit to a digit string multiplies its value by ten and adds the digit. */
  lemma ParseIntAppendDigit(s: string, c: char)
    requires AllDigits(s) && s != "" && IsDigit(c)
    ensures ParseInt(s + [c]) == Some(10 * ParseInt(s).value + DigitValue(c))
  {
  }

  /** Leading zeros do not change the value: `int("007") == int("7")`. */
  lemma {:induction false} ParseIntLeadingZero(s: string)
    requires AllDigits(s) && s != ""
    ensures ParseInt("0" + s) == ParseInt(s)
  {
    var t, c := s[..|s| - 1], s[|s| - 1];
    assert "0" + s == ("0" + t) + [c];
    if t == "" {
      ParseIntAppendDigit("0", c);
    } else {
      assert s == t + [c];
      ParseIntLeadingZero(t);
      ParseIntAppendDigit("0" + t, c);
      ParseIntAppendDigit(t, c);
    }
  }

  /** A '+' sign keeps the value of the digits and a '-' sign negates it. */
  lemma ParseIntSigned(s: string)
    requires AllDigits(s) && s != ""
    ensures ParseInt("+" + s) == ParseInt(s)
    ensures ParseInt("-" + s) == Some(-ParseInt(s).value)
  {
  }

  /** `int(str(i)) == i`. */
  lemma ParseIntToString(i: int)
    ensures ParseInt(IntToString(i)) == Some(i)
  {
    var s := IntToString(i);
    if i < 0 {
      assert s[1..] == NatToString(-i);
      DigitsValueOfNat(-i);
    } else {
      DigitsValueOfNat(i);
    }
  }
}
