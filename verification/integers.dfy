/**
 * Python's `int(s)` on a file-name stem, as a partial function.
 *
 * Accepted: an optional `+` or `-` followed by one or more ASCII decimal
 * digits. Python's `int()` also accepts surrounding whitespace, `_` between
 * digits and non-ASCII decimal digits; those inputs are rejected here.
 */
module Integers {
  import opened Results

  predicate IsDigit(c: char) {
    '0' <= c <= '9'
  }

  /** One or more decimal digits. */
  predicate IsDigits(s: string) {
    |s| > 0 && forall i :: 0 <= i < |s| ==> IsDigit(s[i])
  }

  predicate IsSign(c: char) {
    c == '+' || c == '-'
  }

  /** The strings `int()` accepts in this model. */
  predicate IsIntLiteral(s: string) {
    IsDigits(s) || (|s| > 1 && IsSign(s[0]) && IsDigits(s[1..]))
  }

  function DigitValue(c: char): (d: nat)
    requires IsDigit(c)
    ensures d < 10
  {
    (c as int) - ('0' as int)
  }

  function DigitChar(d: nat): (c: char)
    requires d < 10
    ensures IsDigit(c) && DigitValue(c) == d
  {
    (('0' as int) + d) as char
  }

  /** The value of a digit string, most significant digit first. */
  function DigitsValue(s: string): nat
    requires forall i :: 0 <= i < |s| ==> IsDigit(s[i])
  {
    if s == [] then 0 else DigitsValue(s[..|s| - 1]) * 10 + DigitValue(s[|s| - 1])
  }

  /** `int(s)`, or `None` where Python raises `ValueError`. */
  function ParseInt(s: string): (r: Option<int>)
    ensures r.Some? <==> IsIntLiteral(s)
    ensures r.Some? && s[0] == '-' ==> r.value <= 0
    ensures r.Some? && s[0] != '-' ==> r.value >= 0
  {
    if IsDigits(s) then Some(DigitsValue(s))
    else if |s| > 1 && IsSign(s[0]) && IsDigits(s[1..]) then
      var v: int := DigitsValue(s[1..]);
      Some(if s[0] == '-' then -v else v)
    else None
  }

  /** Decimal digits of `n` without leading zeros: `str(n)` for `n >= 0`. */
  function ShowNat(n: nat): (s: string)
    ensures IsDigits(s)
    ensures |s| > 1 ==> s[0] != '0'
  {
    if n < 10 then [DigitChar(n)] else ShowNat(n / 10) + [DigitChar(n % 10)]
  }

  /** `str(n)`. */
  function ShowInt(n: int): string
  {
    if n < 0 then "-" + ShowNat(-n) else ShowNat(n)
  }

  lemma {:induction false} DigitsValueShowNat(n: nat)
    ensures DigitsValue(ShowNat(n)) == n
  {
    if n >= 10 {
      var s := ShowNat(n);
      assert s[..|s| - 1] == ShowNat(n / 10);
      DigitsValueShowNat(n / 10);
    }
  }

  /** `int(str(n)) == n`: every integer is the key of some stem. */
  lemma ParseShowInt(n: int)
    ensures ParseInt(ShowInt(n)) == Some(n)
  {
    if n < 0 {
      var s := ShowInt(n);
      assert s[1..] == ShowNat(-n);
      DigitsValueShowNat(-n);
    } else {
      DigitsValueShowNat(n);
    }
  }

  /** A leading zero does not change a digit string's value. */
  lemma {:induction false} DigitsValueLeadingZero(s: string)
    requires forall i :: 0 <= i < |s| ==> IsDigit(s[i])
    ensures forall i :: 0 <= i < |"0" + s| ==> IsDigit(("0" + s)[i])
    ensures DigitsValue("0" + s) == DigitsValue(s)
    decreases |s|
  {
    var t := "0" + s;
    assert forall i :: 0 <= i < |t| ==> IsDigit(t[i]) by {
      forall i | 0 <= i < |t| ensures IsDigit(t[i]) {
        if i > 0 { assert t[i] == s[i - 1]; }
      }
    }
    if s != [] {
      var p := s[..|s| - 1];
      assert t[..|t| - 1] == "0" + p;
      assert t[|t| - 1] == s[|s| - 1];
      DigitsValueLeadingZero(p);
    }
  }

  /** `int("0" + s) == int(s)` for every digit string `s`: leading zeros
      do not change a stem's key. */
  lemma ParseLeadingZero(s: string)
    requires IsDigits(s)
    ensures ParseInt("0" + s) == ParseInt(s)
  {
    DigitsValueLeadingZero(s);
  }

  /** `int("+" + s) == int(s)` for every digit string `s`. */
  lemma ParsePlusSign(s: string)
    requires IsDigits(s)
    ensures ParseInt("+" + s) == ParseInt(s)
  {
    var t := "+" + s;
    assert t[1..] == s;
    assert !IsDigit(t[0]);
  }

  /** `int("-" + s) == -int(s)` for every digit string `s`. */
  lemma ParseMinusSign(s: string)
    requires IsDigits(s)
    ensures ParseInt(s).Some? && ParseInt("-" + s) == Some(-ParseInt(s).value)
  {
    var t := "-" + s;
    assert t[1..] == s;
    assert !IsDigit(t[0]);
  }

  /** Different stems can denote the same integer, so integer stems need not
      be distinct even when the file names are. */
  lemma LeadingZerosAndSign()
    ensures ParseInt("7") == ParseInt("07") == ParseInt("+7") == Some(7)
    ensures ParseInt("-0") == Some(0)
    ensures ParseInt("") == None && ParseInt("+") == None && ParseInt("x1") == None
  {
    assert DigitsValue("07") == DigitsValue("0") * 10 + 7 by { assert "07"[..1] == "0"; }
    assert "+7"[1..] == "7" && "-0"[1..] == "0";
  }
}
