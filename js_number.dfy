/**
 * JavaScript's `Number(string)` on the strings a bookmark timestamp can
 * become: decimal digits, optionally signed, and the empty string.
 */
module JsNumber {
  import opened Wrappers

  predicate IsDigit(c: char) {
    '0' <= c <= '9'
  }

  predicate IsDigits(s: string) {
    forall i | 0 <= i < |s| :: IsDigit(s[i])
  }

  function DigitValue(c: char): (d: nat)
    requires IsDigit(c)
    ensures d < 10
  {
    (c as int) - ('0' as int)
  }

  function Pow10(n: nat): (r: nat)
    ensures r >= 1
  {
    if n == 0 then 1 else 10 * Pow10(n - 1)
  }

  /** The number a string of decimal digits denotes (leading zeros allowed); it is below 10^|s|, so it needs at most |s| digits. */
  function DigitsValue(s: string): (v: nat)
    requires IsDigits(s)
    ensures v < Pow10(|s|)
  {
    if s == [] then 0 else DigitsValue(s[..|s| - 1]) * 10 + DigitValue(s[|s| - 1])
  }

  /**
   * `Number(s)` with `None` standing for NaN: the empty string is 0, a
   * digit string is its value, a sign followed by digits is the signed value.
   */
  function StringToNumber(s: string): (r: Option<int>)
    ensures s == [] ==> r == Some(0)
    ensures IsDigits(s) ==> r == Some(DigitsValue(s))
    ensures r.Some? ==> IsDigits(s) || (|s| > 1 && (s[0] == '+' || s[0] == '-') && IsDigits(s[1..]))
    ensures r.Some? ==> forall i | 0 < i < |s| :: IsDigit(s[i])
    ensures r.Some? && r.value < 0 ==> s != [] && s[0] == '-'
  {
    if s == [] then Some(0)
    else if IsDigits(s) then Some(DigitsValue(s))
    else if |s| > 1 && (s[0] == '+' || s[0] == '-') && IsDigits(s[1..]) then
      Some(if s[0] == '-' then -(DigitsValue(s[1..]) as int) else DigitsValue(s[1..]))
    else None
  }

  /** Digits written after a digit string scale its value: value(s + t) == value(s) * 10^|t| + value(t). */
  lemma {:induction false} DigitsValueAppend(s: string, t: string)
    requires IsDigits(s) && IsDigits(t)
    ensures IsDigits(s + t)
    ensures DigitsValue(s + t) == DigitsValue(s) * Pow10(|t|) + DigitsValue(t)
  {
    assert forall i | 0 <= i < |s + t| :: (s + t)[i] == if i < |s| then s[i] else t[i - |s|];
    if t == [] {
      assert s + t == s;
    } else {
      var t', c := t[..|t| - 1], t[|t| - 1];
      var u := s + t;
      assert u[..|u| - 1] == s + t';
      DigitsValueAppend(s, t');
      ShiftDigit(DigitsValue(s), Pow10(|t'|), DigitsValue(t'), DigitValue(c));
    }
  }

  lemma ShiftDigit(a: int, p: int, b: int, d: int)
    ensures (a * p + b) * 10 + d == a * (p * 10) + (b * 10 + d)
  {
  }

  /** Dropping the last three digits of a digit string divides its value by 1000, rounding down. */
  lemma DropThreeDigits(s: string)
    requires IsDigits(s) && |s| >= 3
    ensures IsDigits(s[..|s| - 3])
    ensures DigitsValue(s[..|s| - 3]) == DigitsValue(s) / 1000
  {
    var a, b := s[..|s| - 3], s[|s| - 3..];
    assert s == a + b;
    DigitsValueAppend(a, b);
    assert Pow10(|b|) == 1000;
    assert DigitsValue(b) < 1000;
  }

  /** The shortest decimal spelling of `n`, as a browser writes a timestamp. */
  function DecimalString(n: nat): (s: string)
    ensures s != []
  {
    if n < 10 then [('0' as int + n) as char]
    else DecimalString(n / 10) + [('0' as int + n % 10) as char]
  }

  /** Reading a decimal spelling back gives the number it spells. */
  lemma {:induction false} DecimalStringValue(n: nat)
    ensures IsDigits(DecimalString(n))
    ensures DigitsValue(DecimalString(n)) == n
  {
    var s := DecimalString(n);
    if n >= 10 {
      DecimalStringValue(n / 10);
      var p := DecimalString(n / 10);
      assert s[..|s| - 1] == p;
    }
  }

  /** `Number` inverts the decimal spelling, for either sign. */
  lemma NumberOfDecimalString(n: nat)
    ensures StringToNumber(DecimalString(n)) == Some(n)
    ensures StringToNumber("-" + DecimalString(n)) == Some(-(n as int))
  {
    DecimalStringValue(n);
    var s := DecimalString(n);
    assert ("-" + s)[1..] == s;
    assert !IsDigit(("-" + s)[0]);
  }
}
