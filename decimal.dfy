/** The `%u` conversion the export and unexport writes use: an unsigned
    number as decimal digits without leading zeros, and the reading the
    kernel applies to that payload. */
module DecimalFormat {

  predicate IsDigit(c: char) {
    '0' <= c <= '9'
  }

  function DigitChar(d: nat): (c: char)
    requires d < 10
    ensures IsDigit(c)
  {
    "0123456789"[d]
  }

  function DigitValue(c: char): (d: nat)
    requires IsDigit(c)
    ensures d < 10
    ensures DigitChar(d) == c
  {
    (c as int) - ('0' as int)
  }

  predicate AllDigits(s: string) {
    forall i :: 0 <= i < |s| ==> IsDigit(s[i])
  }

  /** What `%u` prints: at least one digit, and no leading zero unless the
      number is zero itself. */
  predicate IsDecimal(s: string) {
    |s| >= 1 && AllDigits(s) && (|s| > 1 ==> s[0] != '0')
  }

  /** `%u` of `n`. */
  function Decimal(n: nat): (s: string)
    ensures IsDecimal(s)
    ensures n < 10 <==> |s| == 1
  {
    if n < 10 then [DigitChar(n)] else Decimal(n / 10) + [DigitChar(n % 10)]
  }

  /** The number a string of digits denotes. */
  function ParseDecimal(s: string): (n: nat)
    requires AllDigits(s)
  {
    if s == [] then 0 else ParseDecimal(s[..|s| - 1]) * 10 + DigitValue(s[|s| - 1])
  }

  /** Reading back what `%u` printed gives the number. */
  lemma {:induction false} ParseOfDecimal(n: nat)
    ensures ParseDecimal(Decimal(n)) == n
  {
    if n >= 10 {
      var s := Decimal(n);
      assert s[..|s| - 1] == Decimal(n / 10);
      ParseOfDecimal(n / 10);
    }
  }

  /** A digit string without a leading zero denotes at least one. */
  lemma {:induction false} LeadingDigitPositive(s: string)
    requires IsDecimal(s) && s[0] != '0'
    ensures ParseDecimal(s) >= 1
  {
    if |s| > 1 {
      LeadingDigitPositive(s[..|s| - 1]);
    }
  }

  /** Printing what was read gives the string back: the payloads `%u`
      produces are exactly the decimal strings. */
  lemma {:induction false} DecimalOfParse(s: string)
    requires IsDecimal(s)
    ensures Decimal(ParseDecimal(s)) == s
  {
    if |s| > 1 {
      var init := s[..|s| - 1];
      assert IsDecimal(init);
      LeadingDigitPositive(init);
      DecimalOfParse(init);
      assert s == init + [s[|s| - 1]];
    }
  }

  /** Distinct line numbers are written as distinct payloads. */
  lemma DecimalInjective(m: nat, n: nat)
    requires Decimal(m) == Decimal(n)
    ensures m == n
  {
    ParseOfDecimal(m);
    ParseOfDecimal(n);
  }

  lemma Examples()
    ensures Decimal(0) == "0"
    ensures Decimal(60) == "60"
    ensures Decimal(127) == "127"
  {
  }
}
