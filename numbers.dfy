/** Decimal digits and JavaScript's `parseFloat`, restricted to plain decimal literals. */
module Numbers {
  import opened Base

  predicate IsDigit(c: char) { '0' <= c <= '9' }

  predicate AllDigits(s: string)
  {
    forall k :: 0 <= k < |s| ==> IsDigit(s[k])
  }

  function DigitValue(c: char): nat
    requires IsDigit(c)
  {
    c as int - '0' as int
  }

  function DigitChar(d: nat): (c: char)
    requires d < 10
    ensures IsDigit(c) && DigitValue(c) == d
  {
    ('0' as int + d) as char
  }

  /** The number of leading decimal digits of `s`. */
  function DigitRun(s: string): (n: nat)
    ensures n <= |s|
    ensures forall k :: 0 <= k < n ==> IsDigit(s[k])
    ensures n < |s| ==> !IsDigit(s[n])
  {
    if |s| > 0 && IsDigit(s[0]) then 1 + DigitRun(s[1..]) else 0
  }

  /** The value of a string of decimal digits. */
  function DigitsValue(ds: string): nat
    requires AllDigits(ds)
  {
    if |ds| == 0 then 0 else 10 * DigitsValue(ds[..|ds| - 1]) + DigitValue(ds[|ds| - 1])
  }

  function Pow10(n: nat): (p: nat)
    ensures p >= 1
  {
    if n == 0 then 1 else 10 * Pow10(n - 1)
  }

  /** The decimal representation of `n`, as `String(n)` writes it. */
  function NatToString(n: nat): (s: string)
    ensures |s| >= 1 && AllDigits(s)
  {
    if n < 10 then [DigitChar(n)] else NatToString(n / 10) + [DigitChar(n % 10)]
  }

  /** Reading back the digits of `n` gives `n`. */
  lemma {:induction false} DigitsValueOfNatToString(n: nat)
    ensures DigitsValue(NatToString(n)) == n
  {
    if n >= 10 {
      var s := NatToString(n);
      assert s[..|s| - 1] == NatToString(n / 10);
      DigitsValueOfNatToString(n / 10);
    }
  }

  /** A maximal digit run stops at the first non-digit. */
  lemma {:induction false} DigitRunOfDigitsThen(ds: string, rest: string)
    requires AllDigits(ds)
    requires |rest| == 0 || !IsDigit(rest[0])
    ensures DigitRun(ds + rest) == |ds|
  {
    if |ds| > 0 {
      assert (ds + rest)[1..] == ds[1..] + rest;
      DigitRunOfDigitsThen(ds[1..], rest);
    } else {
      assert ds + rest == rest;
    }
  }

  /** The value of an integer part and a fraction part written in decimal digits. */
  function Magnitude(whole: string, frac: string): real
    requires AllDigits(whole) && AllDigits(frac)
  {
    DigitsValue(whole) as real + DigitsValue(frac) as real / Pow10(|frac|) as real
  }

  /** `parseFloat(s)`: leading white space is skipped, then the longest prefix of the form
      sign, digits, and an optional `.` with more digits is read; at least one digit is needed,
      otherwise the result is `NaN` (here `None`). */
  function ParseFloat(s: string): (r: Option<real>)
    ensures r.None? <==>
      var t := s[LeadingSpace(s)..];
      var body := if |t| > 0 && (t[0] == '-' || t[0] == '+') then t[1..] else t;
      DigitRun(body) == 0 && !(|body| >= 2 && body[0] == '.' && IsDigit(body[1]))
  {
    var t := s[LeadingSpace(s)..];
    var negative := |t| > 0 && t[0] == '-';
    var body := if |t| > 0 && (t[0] == '-' || t[0] == '+') then t[1..] else t;
    var n := DigitRun(body);
    var after := body[n..];
    var m := if |after| > 0 && after[0] == '.' then DigitRun(after[1..]) else 0;
    if n + m == 0 then None
    else
      var frac := if m > 0 then after[1..][..m] else "";
      var magnitude := Magnitude(body[..n], frac);
      Some(if negative then -magnitude else magnitude)
  }

  /** `parseFloat(String(n) + rest)` is `n` when `rest` does not continue the number. */
  lemma ParseFloatOfNat(n: nat, rest: string)
    requires |rest| == 0 || (!IsDigit(rest[0]) && rest[0] != '.')
    ensures ParseFloat(NatToString(n) + rest) == Some(n as real)
  {
    var s := NatToString(n) + rest;
    assert !IsJsSpace(s[0]) && s[0] != '-' && s[0] != '+';
    assert LeadingSpace(s) == 0;
    DigitRunOfDigitsThen(NatToString(n), rest);
    assert s[..|NatToString(n)|] == NatToString(n);
    DigitsValueOfNatToString(n);
  }

  /** A leading minus sign negates the value. */
  lemma ParseFloatNegative(s: string)
    requires |s| > 0 && IsDigit(s[0])
    ensures ParseFloat("-" + s).Some? && ParseFloat(s).Some?
    ensures ParseFloat("-" + s).value == -ParseFloat(s).value
  {
    var t := "-" + s;
    assert LeadingSpace(t) == 0 && LeadingSpace(s) == 0;
    assert t[0..][1..] == s;
  }

  /** Text that does not start with a number, after white space, parses as `NaN`. */
  lemma ParseFloatNotANumber()
    ensures ParseFloat("auto").None?
    ensures ParseFloat("").None?
    ensures ParseFloat("-.").None?
  {
    assert LeadingSpace("auto") == 0;
    assert LeadingSpace("-.") == 0;
    assert "-."[0..][1..] == ".";
  }
}
