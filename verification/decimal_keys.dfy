/** Recognition of share keys and their reading as decimal integers. A key
    names the abscissa of a share: digits only, no sign, no decimal point,
    leading zeros allowed. */
module DecimalKeys {

  predicate IsDigit(c: char) {
    '0' <= c <= '9'
  }

  predicate AllDigits(s: string) {
    forall i :: 0 <= i < |s| ==> IsDigit(s[i])
  }

  /** The key test: a non-empty string of decimal digits. */
  function IsNumericKey(s: string): (b: bool)
    ensures b <==> |s| > 0 && AllDigits(s)
  {
    |s| > 0 && DigitsFrom(s, 0)
  }

  /** The scan behind IsNumericKey: true when every character from index i on
      is a digit, stopping at the first one that is not. */
  function DigitsFrom(s: string, i: nat): (b: bool)
    requires i <= |s|
    ensures b <==> forall j :: i <= j < |s| ==> IsDigit(s[j])
    decreases |s| - i
  {
    if i == |s| then true
    else if s[i] < '0' || s[i] > '9' then false
    else DigitsFrom(s, i + 1)
  }

  function DigitValue(c: char): (d: nat)
    requires IsDigit(c)
    ensures d < 10
  {
    (c as int) - ('0' as int)
  }

  function DigitChar(d: nat): (c: char)
    requires d < 10
    ensures IsDigit(c) && DigitValue(c) == d
  {
    ('0' as int + d) as char
  }

  /** The integer a digit string denotes in base ten, as the arbitrary-precision
      integer parser reads it. */
  function DecimalValue(s: string): nat
    requires AllDigits(s)
    decreases |s|
  {
    if |s| == 0 then 0
    else 10 * DecimalValue(s[..|s| - 1]) + DigitValue(s[|s| - 1])
  }

  /** The canonical decimal spelling of a natural number: no leading zeros,
      and "0" for zero. */
  function DecimalString(n: nat): (s: string)
    ensures |s| > 0 && AllDigits(s)
    decreases n
  {
    if n < 10 then [DigitChar(n)] else DecimalString(n / 10) + [DigitChar(n % 10)]
  }

  /** Every natural number has a key, and reading that key gives it back. */
  lemma {:induction false} DecimalRoundTrip(n: nat)
    ensures IsNumericKey(DecimalString(n)) && DecimalValue(DecimalString(n)) == n
    decreases n
  {
    var s := DecimalString(n);
    if n >= 10 {
      DecimalRoundTrip(n / 10);
      assert s[..|s| - 1] == DecimalString(n / 10);
    }
  }

  /** The canonical spelling starts with a zero only for zero itself. */
  lemma {:induction false} CanonicalNoLeadingZero(n: nat)
    ensures DecimalString(n)[0] == '0' <==> n == 0
    decreases n
  {
    if n >= 10 {
      CanonicalNoLeadingZero(n / 10);
    }
  }

  /** A leading zero does not change the value read, so distinct keys such as
      "1" and "01" name the same abscissa. */
  lemma {:induction false} LeadingZero(s: string)
    requires AllDigits(s)
    ensures AllDigits("0" + s) && DecimalValue("0" + s) == DecimalValue(s)
    decreases |s|
  {
    var t := "0" + s;
    if |s| > 0 {
      var init := s[..|s| - 1];
      assert t[..|t| - 1] == "0" + init;
      assert t[|t| - 1] == s[|s| - 1];
      LeadingZero(init);
    }
  }

  /** Every abscissa has at least two distinct keys, its canonical spelling
      (which has no leading zero unless x is 0) and that spelling with a
      leading zero, and both read as the same number: distinct property names
      can collide on one x. */
  lemma KeyCollision(x: nat)
    ensures var k1, k2 := DecimalString(x), "0" + DecimalString(x);
            && k1 != k2 && IsNumericKey(k1) && IsNumericKey(k2)
            && DecimalValue(k1) == x && DecimalValue(k2) == x
            && (k1[0] == '0' <==> x == 0)
  {
    DecimalRoundTrip(x);
    CanonicalNoLeadingZero(x);
    LeadingZero(DecimalString(x));
    assert |"0" + DecimalString(x)| == |DecimalString(x)| + 1;
  }

  /** Which strings the key test accepts. */
  lemma NumericKeyExamples()
    ensures IsNumericKey("1") && IsNumericKey("01") && IsNumericKey("0")
    ensures !IsNumericKey("") && !IsNumericKey("-1") && !IsNumericKey("+1")
    ensures !IsNumericKey("1.5") && !IsNumericKey("keys")
    ensures DecimalValue("01") == DecimalValue("1") == 1
  {
    assert !IsDigit("-1"[0]) && !IsDigit("+1"[0]) && !IsDigit("1.5"[1]) && !IsDigit("keys"[0]);
    LeadingZero("1");
  }
}
